/** A hooked program as a whole: installs as steps of a run, and the trampoline as a stand-in for
    the code the hook overwrote. */
module HookedProgram {
  import opened Words
  import opened Lde
  import opened Relocation
  import opened Simulation
  import opened Processor
  import opened HookSite
  import opened HookCode
  import opened NakedTrampoline
  import opened PatchState
  import opened RestoreOrder
  import opened PatchManager

  /** A recorded install that was refused nothing is a clean step of a run if and only if its record
      keeps the original code. */
  lemma InstallIsClean(s: State, patch: FunctionPatch, site: word, size: word, env: Environment,
                       trampoline: Option<word>, event: Event)
    requires AnswersAt(s.memory, patch, site, size, env, true, PatchOk, trampoline, event)
    requires Records(patch) && env.block.Some? && env.protect && env.block.value !in s.heap
    requires Possible(s, event) && Backed(s.list, s.heap, |s.memory|) && |s.memory| <= WORD_LIMIT
    ensures Clean(s, event) <==> KeepsOriginal(s.memory, patch, site, size, env.block.value)
  {
    hide TrampolineBytes, Backed, Splice, HookBytes, NopBytes;
  }

  // ---------------------------------------------------------------- what was asked for

  /** A patch that was carried out lies where the search leads from the address asked for: the source
      itself, or for a patch relative to a base, the base and the source together. */
  lemma PatchesWhereAsked(mem: seq<byte>, patch: FunctionPatch, baseAddress: word, env: Environment, accepts: bool,
                          hops: nat, status: PatchStatus, trampoline: Option<word>, event: Event)
    requires GetSizeOfHookOpSize(patch.hookOp).Some? ==>
               Settles(mem, AddressOf(patch, baseAddress), GetSizeOfHookOpSize(patch.hookOp).value, hops)
    requires Answers(mem, patch, baseAddress, env, accepts, hops, status, trampoline, event) && event.Patched?
    ensures GetSizeOfHookOpSize(patch.hookOp).Some?
    ensures var need := GetSizeOfHookOpSize(patch.hookOp).value;
            var asked := if patch.virtualAddress then patch.source else Wrap(baseAddress + patch.source);
            && Settles(mem, asked, need, hops)
            && SiteOf(mem, asked, need, hops) == Found(event.site, |event.hook|)
    ensures patch.target != 0 && patch.source != 0xFFFF_FFFF && status == PatchOk
  {
    hide Settles, SiteOf, HookBytes, NopBytes, IsRecord;
  }

  /** Whether a patch that was carried out made a record, and whether its address was handed out, by
      the options of the caller. */
  lemma OptionsDecide(mem: seq<byte>, patch: FunctionPatch, site: word, size: nat, env: Environment, accepts: bool,
                      status: PatchStatus, trampoline: Option<word>, event: Event)
    requires AnswersAt(mem, patch, site, size, env, accepts, status, trampoline, event) && event.Patched?
    ensures event.record.Some? <==> patch.naked || (patch.wantsTrampoline && !patch.doNotDisassemble)
    ensures trampoline.Some? <==> patch.wantsTrampoline && (patch.naked || !patch.doNotDisassemble)
    ensures trampoline.Some? ==> event.record.Some? && trampoline.value == event.record.value.0
  {
    hide IsHook, IsRecord;
  }

  /** A hook that was installed, run in the memory it was installed in: control at the site comes to
      the target, or for a naked hook to the trampoline of its record. */
  lemma InstalledHookReaches(s: State, patch: FunctionPatch, flags: word, site: word, size: word, env: Environment,
                             accepts: bool, trampoline: Option<word>, event: Event, m: Machine)
    requires AnswersAt(s.memory, patch, site, size, env, accepts, PatchOk, trampoline, event) && Possible(s, event)
    requires patch.hookOp == HookOpOf(flags) && m.eip == site && |env.stack| == TRAMPOLINE_SIZE
    ensures site + size <= |s.memory| && GetSizeOfHookOpSize(patch.hookOp).Some?
    ensures var code := Apply(s, event).memory[site..site + size];
            var run := Processor.Run(code, site, m, if patch.hookOp <= OP_CALL then 1 else 2);
            && run.Some? && run.value.eip == if patch.naked then env.block.value else patch.target
  {
    hide HookBytes, NopBytes, IsRecord, Processor.Run, Sound, TrampolineBytes;
    var goal := if patch.naked then env.block.value else patch.target;
    var hook := event.hook;
    var tail := hook[GetSizeOfHookOpSize(patch.hookOp).value..];
    assert hook == HookBytes(patch.hookOp, site, goal) + tail;
    assert |tail| < 0x8000_0000;
    SplicedPart(s.memory, site, hook);
    assert Apply(s, event).memory[site..site + size] == hook;
    HookReachesTarget(flags, site, goal, m, tail);
  }

  /** jmp [m32] is one instruction, and none of the branches the copier rewrites. */
  lemma JumpBackIsPlain(at: word)
    ensures First(Encode(JmpMem(at))) == Encode(JmpMem(at)) && FormOf(Encode(JmpMem(at))).Verbatim?
  {
    hide Decode, Bytes4;
    IndirectJumpLength(Encode(JmpMem(at)));
  }

  /** In the states `ok` describes, a jump through the cell goes to `to`: they are states in which the
      cell holds that address. */
  ghost predicate JumpsThrough<S(!new)>(cpu: Cpu<S>, ok: S -> bool, cell: word, to: word)
  {
    forall a, s | ok(s) :: cpu.exec(a, Encode(JmpMem(cell)), s) == Jumps(to, s)
  }

  /** What a site and a run of it must satisfy for its stub at `dst` to stand in for it there: its
      branches and addresses are in order, and throughout the run states are as `ok` says, in which
      its other instructions do not depend on where they stand. */
  ghost predicate CanMove<S(!new)>(cpu: Cpu<S>, ok: S -> bool, mem: seq<byte>, site: word, size: word, dst: word,
                                   tail: seq<byte>, s: S, fuel: nat)
  {
    && IsSite(mem, site, size) && 0 < size && site + size <= |mem|
    && Throughout(cpu, ok, mem[site..site + size], site, 0, s, fuel)
    && var ins := Take(Readable(mem, site), size).ins;
       Relocatable(ins, site, dst, tail) && AllPositionFree(cpu, ok, ins)
  }

  /** A stub at `dst` with a jump back behind it does what the code of the site did. */
  lemma StubStandsIn<S(!new)>(cpu: Cpu<S>, ok: S -> bool, mem: seq<byte>, site: word, size: word, dst: word, cell: word,
                              s: S, fuel: nat)
    requires CanMove(cpu, ok, mem, site, size, dst, Encode(JmpMem(cell)), s, fuel)
    requires JumpsThrough(cpu, ok, cell, Plus(site, size))
    ensures var ins := Take(Readable(mem, site), size).ins;
            Matches(ins, Copies(ins, site, dst),
                    Simulation.Run(cpu, mem[site..site + size], site, 0, s, fuel),
                    Simulation.Run(cpu, StubBytes(ins, site, dst, size) + Encode(JmpMem(cell)), dst, 0, s, fuel))
  {
    hide Relocatable, AllPositionFree, Throughout, FormOf, Take, Flatten, Readable, Stub, Matches, Simulation.Run, Wrap,
         Encode, Site;
    var ins := Take(Readable(mem, site), size).ins;
    SiteCode(mem, site, size);
    RelocatableIsSite(ins, site, dst, Encode(JmpMem(cell)));
    CopiesAreStub(ins, site, dst);
    JumpBackIsPlain(cell);
    StartsAtZero(ins);
    StartsAtZero(Copies(ins, site, dst));
    StubSimulatesSite(cpu, ok, ins, site, dst, Encode(JmpMem(cell)), 0, s, fuel);
  }

  lemma SiteCode(mem: seq<byte>, site: word, size: word)
    requires IsSite(mem, site, size) && 0 < size && site + size <= |mem|
    ensures mem[site..site + size] == Flatten(Take(Readable(mem, site), size).ins)
  {
    hide Take, Flatten, Whole;
    TakeIsInstructions(Readable(mem, site), size);
  }

  /** The trampoline of a plain hook does what the overwritten code did. For any machine, state and
      number of steps: running the record's code from its first byte and running the original site
      agree, as long as the site's own run leaves the cell of the jump back alone. */
  lemma TrampolineStandsIn<S(!new)>(cpu: Cpu<S>, ok: S -> bool, mem: seq<byte>, patch: FunctionPatch, site: word,
                                    size: word, handle: word, data: TrampolineData, s: S, fuel: nat)
    requires !patch.naked && (patch.hookOp != OP_CALL || size != 5 || patch.keepRaw)
    requires IsRecord(mem, patch, site, size, handle, data)
    requires var cell := Plus(handle, JUMP_BACK_FIELD);
             && JumpsThrough(cpu, ok, cell, data.jumpBackAddress)
             && CanMove(cpu, ok, mem, site, size, handle, Encode(JmpMem(cell)), s, fuel)
    ensures var ins := Take(Readable(mem, site), size).ins;
            var length := |TrampolineBytes(mem, patch, site, size, handle)|;
            Matches(ins, Copies(ins, site, handle),
                    Simulation.Run(cpu, mem[site..site + size], site, 0, s, fuel),
                    Simulation.Run(cpu, data.code[..length], handle, 0, s, fuel))
  {
    hide CanMove, Take, Flatten, Readable, Stub, Matches, Simulation.Run, Encode, TrampolineBytes, RecordOf;
    CanMoveIsSite(cpu, ok, mem, site, size, handle, Encode(JmpMem(Plus(handle, JUMP_BACK_FIELD))), s, fuel);
    CodeOfTrampoline(mem, patch, site, size, handle, data);
    StubStandsIn(cpu, ok, mem, site, size, handle, Plus(handle, JUMP_BACK_FIELD), s, fuel);
  }

  lemma CanMoveIsSite<S(!new)>(cpu: Cpu<S>, ok: S -> bool, mem: seq<byte>, site: word, size: word, dst: word,
                               tail: seq<byte>, s: S, fuel: nat)
    requires CanMove(cpu, ok, mem, site, size, dst, tail, s, fuel)
    ensures IsSite(mem, site, size) && 0 < size && site + size <= |mem|
    ensures Take(Readable(mem, site), size).stop == Reached
    ensures Site(Take(Readable(mem, site), size).ins)
  {
  }

  /** So does the stub a naked trampoline returns to, when it does not run the site first. */
  lemma NakedTrampolineStandsIn<S(!new)>(cpu: Cpu<S>, ok: S -> bool, mem: seq<byte>, patch: FunctionPatch, site: word,
                                         size: word, handle: word, data: TrampolineData, s: S, fuel: nat)
    requires patch.naked && !patch.execute && IsRecord(mem, patch, site, size, handle, data)
    requires var cell := Plus(handle, JUMP_BACK_FIELD);
             && JumpsThrough(cpu, ok, cell, data.jumpBackAddress)
             && CanMove(cpu, ok, mem, site, size, Plus(handle, FrameSize(patch.hookOp)), Encode(JmpMem(cell)), s, fuel)
    ensures var ins := Take(Readable(mem, site), size).ins;
            var frame, length := FrameSize(patch.hookOp), |TrampolineBytes(mem, patch, site, size, handle)|;
            var dst := Plus(handle, frame);
            && data.code[..frame] == EncodeAll(Frame(patch.hookOp, dst, patch.target))
            && frame <= length
            && Matches(ins, Copies(ins, site, dst),
                       Simulation.Run(cpu, mem[site..site + size], site, 0, s, fuel),
                       Simulation.Run(cpu, data.code[frame..length], dst, 0, s, fuel))
  {
    hide CanMove, Take, Flatten, Readable, Stub, Matches, Simulation.Run, Encode, EncodeAll, TrampolineBytes, RecordOf,
         FrameBytes;
    var dst, cell := Plus(handle, FrameSize(patch.hookOp)), Plus(handle, JUMP_BACK_FIELD);
    CanMoveIsSite(cpu, ok, mem, site, size, dst, Encode(JmpMem(cell)), s, fuel);
    CodeOfNakedTrampoline(mem, patch, site, size, handle, data);
    FrameBytesAreOps(patch.hookOp, dst, patch.target);
    StubStandsIn(cpu, ok, mem, site, size, dst, cell, s, fuel);
  }

  /** A naked trampoline that runs the site first does what the site did and then, in the state in
      which the site would have run on, reaches its frame; the frame returns behind the site. */
  lemma NakedTrampolineRunsSiteFirst<S(!new)>(cpu: Cpu<S>, ok: S -> bool, mem: seq<byte>, patch: FunctionPatch,
                                              site: word, size: word, handle: word, data: TrampolineData, s: S,
                                              fuel: nat)
    requires patch.naked && patch.execute && IsRecord(mem, patch, site, size, handle, data)
    requires CanMove(cpu, ok, mem, site, size, handle, [], s, fuel)
    ensures var ins := Take(Readable(mem, site), size).ins;
            var stub, length := |StubBytes(ins, site, handle, size)|, |TrampolineBytes(mem, patch, site, size, handle)|;
            var a := Simulation.Run(cpu, mem[site..site + size], site, 0, s, fuel);
            var b := Simulation.Run(cpu, data.code[..stub], handle, 0, s, fuel);
            && data.code[stub..length] == EncodeAll(Frame(patch.hookOp, Plus(site, size), patch.target))
            && (Matches(ins, Copies(ins, site, handle), a, b)
                || BothRanThrough(ins, Copies(ins, site, handle), site, handle, a, b))
  {
    hide Relocatable, AllPositionFree, Throughout, FormOf, Take, Flatten, Readable, Stub, Matches, Simulation.Run,
         EncodeAll, Wrap, Plus, TrampolineBytes, RecordOf, FrameBytes, Site, BothRanThrough;
    var ins := Take(Readable(mem, site), size).ins;
    RelocatableIsSite(ins, site, handle, []);
    SiteCode(mem, site, size);
    CopiesAreStub(ins, site, handle);
    StartsAtZero(ins);
    StartsAtZero(Copies(ins, site, handle));
    CodeOfExecutingTrampoline(mem, patch, site, size, handle, data);
    FrameBytesAreOps(patch.hookOp, Plus(site, size), patch.target);
    BareStubSimulatesSite(cpu, ok, ins, site, handle, 0, s, fuel);
  }

  lemma CodeOfExecutingTrampoline(mem: seq<byte>, patch: FunctionPatch, site: word, size: word, handle: word,
                                  data: TrampolineData)
    requires IsRecord(mem, patch, site, size, handle, data) && patch.naked && patch.execute
    requires Take(Readable(mem, site), size).stop == Reached
    ensures var stub := StubBytes(Take(Readable(mem, site), size).ins, site, handle, size);
            var length := |TrampolineBytes(mem, patch, site, size, handle)|;
            && |stub| <= length <= |data.code|
            && data.code[..|stub|] == stub
            && data.code[|stub|..length] == FrameBytes(patch.hookOp, Plus(site, size), patch.target)
  {
    hide Take, StubBytes, Plus, FrameBytes, RecordOf, Splice;
    RecordStartsWithTrampoline(mem, patch, site, size, handle, data);
    var trampoline := TrampolineBytes(mem, patch, site, size, handle);
    var stub := StubBytes(Take(Readable(mem, site), size).ins, site, handle, size);
    assert trampoline[..|stub|] == stub;
    assert data.code[..|stub|] == data.code[..|trampoline|][..|stub|];
    assert data.code[|stub|..|trampoline|] == data.code[..|trampoline|][|stub|..];
  }

  lemma CodeOfNakedTrampoline(mem: seq<byte>, patch: FunctionPatch, site: word, size: word, handle: word,
                              data: TrampolineData)
    requires IsRecord(mem, patch, site, size, handle, data) && patch.naked && !patch.execute
    requires Take(Readable(mem, site), size).stop == Reached
    ensures var frame, length := FrameSize(patch.hookOp), |TrampolineBytes(mem, patch, site, size, handle)|;
            var dst := Plus(handle, frame);
            && frame <= length <= |data.code|
            && data.code[..frame] == FrameBytes(patch.hookOp, dst, patch.target)
            && data.code[frame..length] == StubBytes(Take(Readable(mem, site), size).ins, site, dst, size)
                                           + Encode(JmpMem(Plus(handle, JUMP_BACK_FIELD)))
            && data.jumpBackAddress == Plus(site, size)
  {
    hide Take, StubBytes, Encode, Plus, FrameBytes, RecordOf, Splice;
    RecordStartsWithTrampoline(mem, patch, site, size, handle, data);
    var trampoline := TrampolineBytes(mem, patch, site, size, handle);
    var frame := FrameSize(patch.hookOp);
    var head := FrameBytes(patch.hookOp, Plus(handle, frame), patch.target);
    assert trampoline[..frame] == head;
    assert data.code[..frame] == data.code[..|trampoline|][..frame];
    assert data.code[frame..|trampoline|] == data.code[..|trampoline|][frame..];
  }

  lemma RecordStartsWithTrampoline(mem: seq<byte>, patch: FunctionPatch, site: word, size: word, handle: word,
                                   data: TrampolineData)
    requires IsRecord(mem, patch, site, size, handle, data)
    ensures var trampoline := TrampolineBytes(mem, patch, site, size, handle);
            |trampoline| <= |data.code| && data.code[..|trampoline|] == trampoline
    ensures data.jumpBackAddress == Plus(site, size)
  {
    hide TrampolineBytes, Plus;
  }

  lemma CopiesAreStub(ins: seq<seq<byte>>, src: word, dst: word)
    requires Site(ins)
    ensures StubBytes(ins, src, dst, |Flatten(ins)|) == Flatten(Copies(ins, src, dst))
  {
  }

  lemma CodeOfTrampoline(mem: seq<byte>, patch: FunctionPatch, site: word, size: word, handle: word,
                         data: TrampolineData)
    requires IsRecord(mem, patch, site, size, handle, data) && !patch.naked && !TailJump(patch, size)
    ensures var trampoline := TrampolineBytes(mem, patch, site, size, handle);
            && data.code[..|trampoline|] == trampoline
            && trampoline == StubBytes(Take(Readable(mem, site), size).ins, site, handle, size)
                             + Encode(JmpMem(Plus(handle, JUMP_BACK_FIELD)))
            && data.jumpBackAddress == Plus(site, size)
  {
    hide Take, StubBytes, Encode, RecordOf, Splice;
    RecordStartsWithTrampoline(mem, patch, site, size, handle, data);
  }

  // ---------------------------------------------------------------- the tail jump

  /** A call hook as long as its site has the first byte of the trampoline overwritten by the opcode of
      a jump. For any site of five bytes, one instruction or several: what the store leaves is a jump,
      and it is the jump to where the copy of the site's first instruction goes if and only if that
      instruction is a near call or jump, or a short jump out of the site; leaving the site, it goes
      where the site went. Otherwise the first instruction is lost and its operand bytes read as a
      displacement; a single instruction then was no branch at all. */
  lemma TailJumpSurvives(ins: seq<seq<byte>>, src: word, dst: word)
    requires Site(ins) && |Flatten(ins)| == 5
    ensures ins != []
    ensures var first := Copies(ins, src, dst)[0];
            var code := Flatten(Copies(ins, src, dst));
            |code| >= 5 &&
            var jump := code[..5][0 := 0xE9];
            && Whole(jump) && FormOf(jump).Relative? && FormOf(jump).branch == Jmp
            && (SameJump(first, jump, dst)
                <==> ins[0][0] == 0xE8 || ins[0][0] == 0xE9 || (ins[0][0] == 0xEB && LeavesSite(ins, src, 0)))
            && (SameJump(first, jump, dst) && LeavesSite(ins, src, 0) ==>
                  TargetOf(jump, dst) == Destination(ins, src, 0))
            && (|ins[0]| == 5 ==> (FormOf(ins[0]).Relative? <==> ins[0][0] == 0xE8 || ins[0][0] == 0xE9))
  {
    hide Decode, Leaves, Word4, Wrap, Flatten, Copies, Whole, PlaceOf;
    assert ins != [] by { FlattenNothing(); }
    var copies := Copies(ins, src, dst);
    var code := Flatten(copies);
    var first, firstOfSite := copies[0], ins[0];
    CopyAt(ins, src, dst, 0);
    StartsAtZero(copies);
    WrapWord(dst);
    LagGrows(ins, src, dst, |ins|, |ins|);
    WholeLists(ins);
    WholeLists(copies);
    FlattenHead(ins);
    FlattenHead(copies);
    WholeStandsAlone(firstOfSite, []);
    BranchShape(firstOfSite);
    BranchShape(first);
    BranchIsWhole(code[..5][0 := 0xE9]);
    if |first| == 5 {
      assert first == code[..5];
      assert code[..5][0 := 0xE9][1..] == first[1..];
    }
  }

  /** The copy of the site's first instruction is an unconditional branch of five bytes, and `jump`
      goes where it goes. */
  ghost predicate SameJump(first: seq<byte>, jump: seq<byte>, dst: word)
  {
    && |first| == 5 && FormOf(first).Relative? && !FormOf(first).branch.Jcc?
    && FormOf(jump).Relative? && TargetOf(jump, dst) == TargetOf(first, dst)
  }

  lemma FlattenNothing()
    ensures Flatten([]) == []
  {
  }

  lemma FlattenHead(list: seq<seq<byte>>)
    requires list != []
    ensures list[0] <= Flatten(list)
  {
  }

  /** A recognised branch is told by its first byte and its length. */
  lemma BranchShape(ins: seq<byte>)
    requires Whole(ins)
    ensures |ins| > 0
    ensures FormOf(ins).Relative? && FormOf(ins).branch.Jmp? <==> ins[0] == 0xEB || ins[0] == 0xE9
    ensures FormOf(ins).Relative? && FormOf(ins).branch.Call? <==> ins[0] == 0xE8
    ensures ins[0] == 0xE8 || ins[0] == 0xE9 ==> |ins| == 5
    ensures ins[0] == 0xEB ==> |ins| == 2
    ensures FormOf(ins).Relative? ==> |ins| == 2 || |ins| == LongSize(FormOf(ins).branch)
  {
    hide Decode;
    WholeStandsAlone(ins, []);
    BranchLength(ins);
  }

  lemma BranchIsWhole(jump: seq<byte>)
    requires |jump| == 5 && jump[0] == 0xE9
    ensures Whole(jump) && FormOf(jump) == Relative(Jmp, SignedWord(Word4(jump[1..])))
  {
    hide Decode;
    BranchLength(jump);
  }

  /** The usual start of a function that expects to be patched: mov edi, edi; push ebp;
      mov ebp, esp. The search finds it as a site of five bytes, the first byte of its trampoline
      becomes the opcode of a jump, and the rest of the three instructions its displacement. */
  lemma PrologueIsLost(mem: seq<byte>, site: word, handle: word, target: word, hops: nat)
    requires |mem| <= WORD_LIMIT && site + 5 <= |mem| && mem[site..site + 5] == Prologue()
    ensures var patch := FunctionPatch(OP_CALL, site, target, true, true, false, false, false, false);
            && Settles(mem, site, 5, hops) && SiteOf(mem, site, 5, hops) == Found(site, 5)
            && Records(patch) && TailJump(patch, 5)
            && TrampolineBytes(mem, patch, site, 5, handle) == [0xE9, 0xFF, 0x55, 0x8B, 0xEC]
  {
    hide Decode, Flatten, Take, Stub, Readable;
    var code := Readable(mem, site);
    var ins := PrologueInstructions();
    PrologueShape();
    ReadableFront(mem, site, 5);
    PrologueTake(code);
    assert SiteOf(mem, site, 5, hops) == Found(site, 5) by { FoundAtOnce(mem, site, 5, ins, hops); }
    StraightSiteIsRelocatable(ins, site, handle, []);
    CopiesAreStub(ins, site, handle);
  }

  function Prologue(): seq<byte>
  {
    [0x8B, 0xFF, 0x55, 0x8B, 0xEC]
  }

  function PrologueInstructions(): seq<seq<byte>>
  {
    [[0x8B, 0xFF], [0x55], [0x8B, 0xEC]]
  }

  lemma PrologueShape()
    ensures var ins := PrologueInstructions();
            && Offset(ins, 0) == 0 && Offset(ins, 1) == 2 && Offset(ins, 2) == 3 && Flatten(ins) == Prologue()
            && Site(ins)
  {
    hide ImmSize;
    var ins := PrologueInstructions();
    ThreeFlat(ins);
    MovIsWhole(ins[0]);
    MovIsWhole(ins[2]);
    PushIsWhole(ins[1]);
  }

  /** Three instructions, one after another. */
  lemma ThreeFlat(ins: seq<seq<byte>>)
    requires |ins| == 3
    ensures Offset(ins, 0) == 0 && Offset(ins, 1) == |ins[0]| && Offset(ins, 2) == |ins[0]| + |ins[1]|
    ensures Flatten(ins) == ins[0] + ins[1] + ins[2]
  {
    StartsAtZero(ins);
    OffsetStep(ins, 0); OffsetStep(ins, 1); OffsetStep(ins, 2);
    FlattenSplits(ins, 2);
    FlattenSplits(ins[..2], 1);
    assert ins[..2][..1] == [ins[0]] && ins[..2][1..] == [ins[1]] && ins[2..] == [ins[2]];
    FlattenOne(ins[0]);
    FlattenOne(ins[1]);
    FlattenOne(ins[2]);
  }

  lemma MovIsWhole(ins: seq<byte>)
    requires |ins| == 2 && ins[0] == 0x8B && ins[1] >= 0xC0
    ensures Whole(ins)
  {
    assert ins[0..] == ins && ins[..0] == [];
  }

  lemma PushIsWhole(ins: seq<byte>)
    requires ins == [0x55]
    ensures Whole(ins)
  {
    assert ins[0..] == ins && ins[..0] == [];
  }

  lemma PrologueTake(code: seq<byte>)
    requires Prologue() <= code
    ensures Take(code, 5) == Scan(PrologueInstructions(), Reached)
  {
    hide Decode, Take, Whole;
    PrologueShape();
    TakeFinds(code, 5, PrologueInstructions());
  }

  lemma ReadableFront(mem: seq<byte>, site: word, size: nat)
    requires site + size <= |mem|
    ensures mem[site..site + size] <= Readable(mem, site)
  {
    assert mem[site..][..size] == mem[site..site + size];
  }

  /** Where no jump stands in front, the search finds what lies there. */
  lemma FoundAtOnce(mem: seq<byte>, site: word, need: nat, ins: seq<seq<byte>>, hops: nat)
    requires Take(Readable(mem, site), need) == Scan(ins, Reached)
    requires |Readable(mem, site)| > 0 && Readable(mem, site)[0] != 0xEB && Readable(mem, site)[0] != 0xFF
    requires forall i | 0 <= i < |ins| :: !BareJump(ins[i])
    ensures Settles(mem, site, need, hops) && SiteOf(mem, site, need, hops) == Found(site, |Flatten(ins)|)
  {
    hide Take, Flatten, First, BareJump;
  }

  // ---------------------------------------------------------------- sites the search finds

  /** The site whose je misses the copy of its target is what the search finds for a push hook. */
  lemma WidenedSiteIsFound(mem: seq<byte>, site: word, hops: nat)
    requires |mem| <= WORD_LIMIT && site + 6 <= |mem| && mem[site..site + 6] == [0x74, 0x02, 0x75, 0x40, 0x90, 0x90]
    ensures Take(Readable(mem, site), 6) == Scan(JumpOverLeavingBranch(), Reached)
    ensures Settles(mem, site, 6, hops) && SiteOf(mem, site, 6, hops) == Found(site, 6)
  {
    hide Decode, Flatten, Take, Readable, Whole;
    var ins := JumpOverLeavingBranch();
    ExampleOffsets();
    ExampleIsSite();
    ExampleCode();
    ReadableFront(mem, site, 6);
    TakeFinds(Readable(mem, site), 6, ins);
    FoundAtOnce(mem, site, 6, ins, hops);
  }

  lemma ExampleCode()
    ensures Flatten(JumpOverLeavingBranch()) == [0x74, 0x02, 0x75, 0x40, 0x90, 0x90]
  {
    var ins := JumpOverLeavingBranch();
    FlattenSplits(ins, 3);
    assert ins[..3] == [ins[0], ins[1], ins[2]] && ins[3..] == [ins[3]];
    ThreeFlat(ins[..3]);
    FlattenOne(ins[3]);
  }

  /** A site hooked by a jump is found again, as a site of the hook itself. */
  lemma HookedSiteIsFound(mem: seq<byte>, site: word, target: word, hops: nat)
    requires |mem| <= WORD_LIMIT && site + 5 <= |mem| && mem[site..site + 5] == HookBytes(OP_JUMP, site, target)
    ensures Settles(mem, site, 5, hops) && SiteOf(mem, site, 5, hops) == Found(site, 5)
  {
    hide Decode, Flatten, Take, Readable, Whole, Wrap, Bytes4;
    var hook := HookBytes(OP_JUMP, site, target);
    var ins := [hook];
    BranchIsWhole(hook);
    FlattenOne(hook);
    StartsAtZero(ins);
    ReadableFront(mem, site, 5);
    TakeFinds(Readable(mem, site), 5, ins);
    FoundAtOnce(mem, site, 5, ins, hops);
  }

  // ---------------------------------------------------------------- hooking a site twice

  /** A recorded install at a site of five bytes, refused nothing, whose record keeps the code. */
  ghost predicate Installs(m: seq<byte>, patch: FunctionPatch, site: word, env: Environment, trampoline: Option<word>,
                           event: Event)
  {
    && AnswersAt(m, patch, site, 5, env, true, PatchOk, trampoline, event)
    && Records(patch) && env.block.Some? && env.protect && KeepsOriginal(m, patch, site, 5, env.block.value)
  }

  lemma InstallsIsClean(s: State, patch: FunctionPatch, site: word, env: Environment, trampoline: Option<word>,
                        event: Event)
    requires Installs(s.memory, patch, site, env, trampoline, event) && |s.memory| <= WORD_LIMIT
    requires Backed(s.list, s.heap, |s.memory|) && env.block.value !in s.heap
    ensures Clean(s, event) && event.Patched? && event.site == site && |event.hook| == 5 && event.record.Some?
    ensures event.record.value.0 == env.block.value
    ensures patch.hookOp == OP_JUMP && !patch.naked ==> event.hook == HookBytes(OP_JUMP, site, patch.target)
  {
    hide TrampolineBytes, Backed, Splice, NopBytes, KeepsOriginal, HookBytes;
    assert site + 5 <= |s.memory| && Sound(event.record.value.1, |s.memory|);
    InstallIsClean(s, patch, site, 5, env, trampoline, event);
    NoFiller();
  }

  lemma NoFiller()
    ensures NopBytes(0) == []
  {
  }

  /** A site hooked twice, by a jump first: the second install finds the first hook as its site, and
      restoring the first hook before the second gives the original program back only if the first
      hook was, byte for byte, the code it replaced. */
  lemma HookedTwice(m: seq<byte>, site: word,
                    patch1: FunctionPatch, env1: Environment, trampoline1: Option<word>, e1: Event,
                    patch2: FunctionPatch, env2: Environment, trampoline2: Option<word>, e2: Event, hops: nat)
    requires |m| <= WORD_LIMIT && Installs(m, patch1, site, env1, trampoline1, e1)
    requires patch1.hookOp == OP_JUMP && !patch1.naked && site + 5 <= |m|
    requires var m1 := Splice(m, site, HookBytes(OP_JUMP, site, patch1.target));
             Installs(m1, patch2, site, env2, trampoline2, e2)
    requires env1.block.value != env2.block.value
    ensures var m1 := Splice(m, site, HookBytes(OP_JUMP, site, patch1.target));
            Settles(m1, site, 5, hops) && SiteOf(m1, site, 5, hops) == Found(site, 5)
    ensures PossibleRun(State(m, [], map[]), [e1, e2])
    ensures var s := After(State(m, [], map[]), [e1, e2]);
            var order := [env1.block.value, env2.block.value];
            && s.list == order && PossibleRun(s, Restores(order))
            && (After(s, Restores(order)).memory == m
                <==> m[site..site + 5] == HookBytes(OP_JUMP, site, patch1.target))
  {
    hide Installs, HookBytes, Splice, PossibleRun, After, Settles, SiteOf;
    var s0 := State(m, [], map[]);
    InstallsIsClean(s0, patch1, site, env1, trampoline1, e1);
    InstallEffect(s0, e1);
    var s1 := Apply(s0, e1);
    InstallsIsClean(s1, patch2, site, env2, trampoline2, e2);
    assert BothInstalled(m, e1, e2);
    TwoInInstallOrder(m, e1, e2);
    SplicedPart(m, site, e1.hook);
    HookedSiteIsFound(Splice(m, site, e1.hook), site, patch1.target, hops);
  }

  // ---------------------------------------------------------------- a refused install

  /** An install hands out the address of a record that does not exist if and only if it was refused
      protection after making one and the caller had asked for the address. */
  lemma RefusedHandsOutFreed(s: State, patch: FunctionPatch, site: word, size: nat, env: Environment, accepts: bool,
                             status: PatchStatus, trampoline: Option<word>, event: Event)
    requires AnswersAt(s.memory, patch, site, size, env, accepts, status, trampoline, event) && Possible(s, event)
    requires env.block.Some? ==> env.block.value !in s.heap
    ensures trampoline.Some? && trampoline.value !in Apply(s, event).heap
            <==> status == PatchAccessDenied && Records(patch) && patch.wantsTrampoline
  {
    hide IsHook, IsRecord, Splice, Sound;
  }

  /** Two installs of which the first is refused and the second gets the block the first had: the list
      ends up with the record twice. */
  lemma RefusedThenReused(m: seq<byte>, patch1: FunctionPatch, site1: word, size1: nat, env1: Environment,
                          trampoline1: Option<word>, e1: Event,
                          patch2: FunctionPatch, site2: word, size2: nat, env2: Environment,
                          trampoline2: Option<word>, e2: Event)
    requires |m| <= WORD_LIMIT && Records(patch1) && Records(patch2) && env1.block.Some? && env1.block == env2.block
    requires !env1.protect && env2.protect
    requires AnswersAt(m, patch1, site1, size1, env1, true, PatchAccessDenied, trampoline1, e1)
    requires AnswersAt(m, patch2, site2, size2, env2, true, PatchOk, trampoline2, e2)
    ensures var s := State(m, [], map[]);
            && FreshRun(s, [e1, e2]) && PossibleRun(s, [e1, e2])
            && After(s, [e1, e2]).list == [env1.block.value, env1.block.value] && Live(After(s, [e1, e2]))
  {
    hide TrampolineBytes, Splice, HookBytes, NopBytes, FreshRun, PossibleRun, After, Live;
    var (handle, data) := e2.record.value;
    assert e1 == Refused(handle, true) && e2 == Patched(site2, e2.hook, Some((handle, data)), true);
    assert Sound(data, |m|) && site2 + |e2.hook| <= |m|;
    ReuseRevivesStaleEntry(m, handle, site2, e2.hook, data);
  }

  // ---------------------------------------------------------------- behind a call hook

  /** A call hook returns to the bytes behind it. Whatever the stack held, they are whole instructions
      up to the end of the site if and only if there are at most seven of them. */
  lemma CallReturnsSafely(hookOp: word, sourceIp: word, target: word, size: nat)
    requires GetSizeOfHookOpSize(hookOp).Some? && GetSizeOfHookOpSize(hookOp).value <= size <= TRAMPOLINE_SIZE
    ensures var need := GetSizeOfHookOpSize(hookOp).value;
            (forall stack, hook | |stack| == TRAMPOLINE_SIZE && IsHook(hook, hookOp, sourceIp, target, size, stack) ::
               Instructions(hook[need..], size - need).Some?)
            <==> size - need <= 7
  {
    hide Instructions, HookBytes, NopBytes;
    var need := GetSizeOfHookOpSize(hookOp).value;
    if size - need <= 7 {
      forall stack, hook | |stack| == TRAMPOLINE_SIZE && IsHook(hook, hookOp, sourceIp, target, size, stack)
        ensures Instructions(hook[need..], size - need).Some?
      {
        assert hook[need..] == NopBytes(size - need);
        NopIsInstructions(size - need);
      }
    } else {
      var stack: seq<byte> := seq(TRAMPOLINE_SIZE, _ => 0x66);
      var hook := HookBytes(hookOp, sourceIp, target) + stack[need..size];
      assert IsHook(hook, hookOp, sourceIp, target, size, stack);
      assert hook[need..] == stack[need..size];
      PrefixesAreNoInstruction(stack[need..size]);
    }
  }

  lemma PrefixesAreNoInstruction(code: seq<byte>)
    requires code != [] && forall i | 0 <= i < |code| :: code[i] == 0x66
    ensures Instructions(code, |code|).None?
  {
    var k := PrefixEnd(code, 0);
    assert k == |code|;
    assert code[k..] == [];
  }

  /** sub esp, 10h and an eleven-byte store, a site that leaves nine bytes behind a call hook. */
  lemma LongSiteIsFound(mem: seq<byte>, site: word, hops: nat)
    requires |mem| <= WORD_LIMIT && site + 14 <= |mem| && mem[site..site + 14] == LongSite()
    ensures Settles(mem, site, 5, hops) && SiteOf(mem, site, 5, hops) == Found(site, 14)
  {
    hide Decode, Flatten, Take, Readable, Whole;
    var ins := LongInstructions();
    LongShape();
    ReadableFront(mem, site, 14);
    TakeFinds(Readable(mem, site), 5, ins);
    FoundAtOnce(mem, site, 5, ins, hops);
  }

  function LongSite(): seq<byte>
  {
    [0x83, 0xEC, 0x10] + [0xC7, 0x84, 0x24, 0x00, 0x00, 0x00, 0x00, 0x00, 0x00, 0x00, 0x00]
  }

  function LongInstructions(): seq<seq<byte>>
  {
    [[0x83, 0xEC, 0x10], [0xC7, 0x84, 0x24, 0x00, 0x00, 0x00, 0x00, 0x00, 0x00, 0x00, 0x00]]
  }

  lemma LongShape()
    ensures var ins := LongInstructions();
            && Offset(ins, 0) == 0 && Offset(ins, 1) == 3 && Flatten(ins) == LongSite() && AllWhole(ins)
  {
    hide ImmSize;
    var ins := LongInstructions();
    StartsAtZero(ins);
    OffsetStep(ins, 0);
    FlattenSplits(ins, 1);
    assert ins[..1] == [ins[0]] && ins[1..] == [ins[1]];
    FlattenOne(ins[0]);
    FlattenOne(ins[1]);
    assert ins[0][0..] == ins[0] && ins[0][..0] == [];
    assert ins[1][0..] == ins[1] && ins[1][..0] == [];
    LongSizes(ins[0], ins[1]);
  }

  lemma LongSizes(sub: seq<byte>, store: seq<byte>)
    requires sub == LongInstructions()[0] && store == LongInstructions()[1]
    ensures BodySize(sub, false, false) == Some(3) && BodySize(store, false, false) == Some(11)
  {
  }

  // ---------------------------------------------------------------- a naked trampoline that overflows

  /** Two short branches out of the site and an eight-byte store. */
  function CrowdedSite(): seq<byte>
  {
    [0x75, 0x40] + [0x75, 0x40] + [0xC7, 0x44, 0x24, 0x04, 0x00, 0x00, 0x00, 0x00]
  }

  function CrowdedInstructions(): seq<seq<byte>>
  {
    [[0x75, 0x40], [0x75, 0x40], [0xC7, 0x44, 0x24, 0x04, 0x00, 0x00, 0x00, 0x00]]
  }

  function CrowdedPatch(site: word, target: word): FunctionPatch
  {
    FunctionPatch(OP_JUMP, site, target, true, true, false, true, false, false)
  }

  lemma CrowdedShape()
    ensures var ins := CrowdedInstructions();
            && Offset(ins, 0) == 0 && Offset(ins, 1) == 2 && Offset(ins, 2) == 4 && Flatten(ins) == CrowdedSite()
            && |CrowdedSite()| == 12 && AllWhole(ins)
  {
    hide ImmSize;
    var ins := CrowdedInstructions();
    ThreeFlat(ins);
    BranchLength(ins[0]);
    BranchLength(ins[1]);
    var store := ins[2];
    assert store[0..] == store && store[..0] == [];
    StoreSize(store);
  }

  lemma StoreSize(store: seq<byte>)
    requires store == CrowdedInstructions()[2]
    ensures BodySize(store, false, false) == Some(8)
  {
  }

  lemma CrowdedTake(code: seq<byte>)
    requires CrowdedSite() <= code
    ensures Take(code, 5) == Scan(CrowdedInstructions(), Reached)
  {
    hide Decode, Take, Whole;
    CrowdedShape();
    TakeFinds(code, 5, CrowdedInstructions());
  }

  lemma CrowdedGrowth()
    ensures Growth(CrowdedInstructions(), 12, 0) == 8
  {
    var ins := CrowdedInstructions();
    var rest, last := ins[1..], ins[2..];
    assert rest[1..] == last && Growth(last[1..], 0, 12) == 0;
    assert Widening(ins[0], 12, 0) == 4 && Widening(ins[1], 10, 2) == 4 && Widening(ins[2], 8, 4) == 0;
  }

  /** Wherever such code lies, the search finds it as a site; and the frame, its stub and the jump
      back are one byte too long for the trampoline. The last byte of the jump's operand falls on
      the first saved byte, so the record keeps the original code only if it happens to lie at an
      address with that byte on top. */
  lemma NakedTrampolineOverflows(mem: seq<byte>, site: word, target: word, handle: word, hops: nat)
    requires |mem| <= WORD_LIMIT && site + 12 <= |mem| && mem[site..site + 12] == CrowdedSite()
    ensures Settles(mem, site, 5, hops) && SiteOf(mem, site, 5, hops) == Found(site, 12)
    ensures var patch := CrowdedPatch(site, target);
            && Overrun(mem, patch, site, 12) == 1 && WithinBuffers(mem, patch, site, 12)
            && (KeepsOriginal(mem, patch, site, 12, handle) <==> Plus(handle, JUMP_BACK_FIELD) / 0x100_0000 == 0x75)
  {
    hide Decode, Flatten, Take, Growth, Readable, RecordOf, TrampolineBytes, Plus, Whole;
    var patch, ins, code := CrowdedPatch(site, target), CrowdedInstructions(), Readable(mem, site);
    CrowdedShape();
    CrowdedGrowth();
    ReadableFront(mem, site, 12);
    CrowdedTake(code);
    FoundAtOnce(mem, site, 5, ins, hops);
    TakeAgain(code, 5);
    assert IsSite(mem, site, 12);
    TrampolineSizes(mem, patch, site, 12, handle);
    TrampolineEnd(mem, patch, site, 12, handle);
    RecordKeepsOriginal(mem, patch, site, 12, handle);
    assert mem[site] == mem[site..site + 12][0] == 0x75;
  }
}
