/** The theorems about trampolines on a machine with its memory in its state: the jump back reads its
    address from there, and a hook, its naked trampoline and the callback are followed from the site
    to the site's code and back. */
module HookedMachine {
  import opened Words
  import opened Lde
  import opened Relocation
  import opened Simulation
  import opened Processor
  import opened HookSite
  import opened HookCode
  import opened NakedTrampoline
  import opened PatchState
  import opened PatchManager
  import opened HookedProgram

  // ---------------------------------------------------------------- the machine

  /** Registers and data memory. */
  datatype Data = Data(regs: Registers, memory: map<word, word>)

  /** What an instruction of the small processor does when it stands at `at` and has `size` bytes. */
  function EffectOf(op: Op, at: word, size: nat, d: Data): Effect<Data>
  {
    var m := Exec(op, Machine(d.regs, Wrap(at + size), d.memory));
    if Straight(op) then Falls(Data(m.regs, m.memory)) else Jumps(m.eip, Data(m.regs, m.memory))
  }

  /** A processor that knows those instructions, and does with all others whatever `others` says. */
  function MachineCpu(others: (word, seq<byte>, Data) -> Effect<Data>, holds: (nat, Data) -> bool): Cpu<Data>
  {
    Cpu((at, ins, d) => match Fetch(ins)
                        case Some(op) => if Encode(op) == ins then EffectOf(op, at, |ins|, d) else others(at, ins, d)
                        case None => others(at, ins, d),
        holds)
  }

  function CellHolds(cell: word, value: word): Data -> bool
  {
    (d: Data) => Load(d.memory, cell) == value
  }

  /** The jump back through a cell goes to the address the cell holds ... */
  lemma JumpsThroughMemory(others: (word, seq<byte>, Data) -> Effect<Data>, holds: (nat, Data) -> bool,
                           cell: word, to: word)
    ensures JumpsThrough(MachineCpu(others, holds), CellHolds(cell, to), cell, to)
  {
    hide Encode, Fetch;
    OpIsExecuted(others, holds, JmpMem(cell));
  }

  /** ... and to no other: the state decides. */
  lemma JumpFollowsCell(others: (word, seq<byte>, Data) -> Effect<Data>, holds: (nat, Data) -> bool,
                        cell: word, to: word, at: word, d: Data)
    ensures MachineCpu(others, holds).exec(at, Encode(JmpMem(cell)), d) == Jumps(to, d) <==> CellHolds(cell, to)(d)
  {
    hide Encode, Fetch;
    OpIsExecuted(others, holds, JmpMem(cell));
  }

  lemma OpIsExecuted(others: (word, seq<byte>, Data) -> Effect<Data>, holds: (nat, Data) -> bool, op: Op)
    ensures forall at, d :: MachineCpu(others, holds).exec(at, Encode(op), d) == EffectOf(op, at, |Encode(op)|, d)
  {
    hide Encode, Fetch, EffectOf;
    FetchEncode(op, []);
    assert Encode(op) + [] == Encode(op);
  }

  /** An instruction of the small processor that does not push its own address. */
  ghost predicate Known(ins: seq<byte>)
  {
    exists op :: ins == Encode(op) && !op.CallReg? && !op.CallRel? && !op.JmpRel?
  }

  /** Such instructions do not depend on where they stand, whatever the state. */
  lemma KnownIsPositionFree(others: (word, seq<byte>, Data) -> Effect<Data>, holds: (nat, Data) -> bool,
                            ok: Data -> bool, ins: seq<byte>)
    requires Known(ins)
    ensures PositionFree(MachineCpu(others, holds), ok, ins)
  {
    hide Encode, Fetch;
    var op :| ins == Encode(op) && !op.CallReg? && !op.CallRel? && !op.JmpRel?;
    OpIsExecuted(others, holds, op);
  }

  /** The record lies in memory at `handle`, word by word. */
  ghost predicate Loaded(memory: map<word, word>, handle: word, data: TrampolineData)
    requires WellFormed(data)
  {
    var image := RecordImage(data);
    forall k: nat | 4 * k + 4 <= |image| :: Load(memory, Plus(handle, 4 * k)) == Word4(image[4 * k..])
  }

  /** In memory that holds the record, the cell its own jump back names holds the address behind the
      site. */
  lemma LoadedRecordJumpsBack(memory: map<word, word>, mem: seq<byte>, patch: FunctionPatch, site: word, size: word,
                              handle: word, data: TrampolineData)
    requires IsRecord(mem, patch, site, size, handle, data) && IsSite(mem, site, size) && WellFormed(data)
    requires if patch.naked then !patch.execute else patch.hookOp != OP_CALL || size != 5 || patch.keepRaw
    requires Loaded(memory, handle, data)
    ensures var trampoline := TrampolineBytes(mem, patch, site, size, handle);
            && |trampoline| >= 6 && JumpCell(trampoline) == Plus(handle, JUMP_BACK_FIELD)
            && Load(memory, JumpCell(trampoline)) == Plus(site, size)
  {
    hide TrampolineBytes, RecordOf, IsSite, Load, RecordImage, JumpCell;
    JumpBackReadsRecord(mem, patch, site, size, handle);
    JumpBackIsLast(mem, patch, site, size, handle);
    var image, cell := RecordImage(data), JumpCell(TrampolineBytes(mem, patch, site, size, handle));
    var k: nat :| 4 * k + 4 <= |image| && cell == Plus(handle, 4 * k)
      && Word4(image[4 * k..]) == Wrap(site + size);
  }

  // ---------------------------------------------------------------- a plain trampoline on it

  /** On this machine, the trampoline of a plain hook does what the overwritten code did, for every
      site of such instructions and recognised branches, from every state with the record in memory,
      as long as the site's own run leaves the cell alone that the trampoline's jump names. */
  lemma TrampolineStandsInOnMachine(others: (word, seq<byte>, Data) -> Effect<Data>, holds: (nat, Data) -> bool,
                                    mem: seq<byte>, patch: FunctionPatch, site: word, size: word, handle: word,
                                    data: TrampolineData, d: Data, fuel: nat)
    requires !patch.naked && (patch.hookOp != OP_CALL || size != 5 || patch.keepRaw)
    requires IsRecord(mem, patch, site, size, handle, data) && WellFormed(data) && Loaded(d.memory, handle, data)
    requires IsSite(mem, site, size) && 0 < size && site + size <= |mem|
    requires var ins := Take(Readable(mem, site), size).ins;
             && Relocatable(ins, site, handle, Encode(JmpMem(Plus(handle, JUMP_BACK_FIELD))))
             && forall i | 0 <= i < |ins| && FormOf(ins[i]).Verbatim? :: Known(ins[i])
    requires var cell := Plus(handle, JUMP_BACK_FIELD);
             Throughout(MachineCpu(others, holds), CellHolds(cell, Load(d.memory, cell)),
                        mem[site..site + size], site, 0, d, fuel)
    ensures var ins := Take(Readable(mem, site), size).ins;
            var length := |TrampolineBytes(mem, patch, site, size, handle)|;
            var cpu := MachineCpu(others, holds);
            Matches(ins, Copies(ins, site, handle),
                    Simulation.Run(cpu, mem[site..site + size], site, 0, d, fuel),
                    Simulation.Run(cpu, data.code[..length], handle, 0, d, fuel))
  {
    hide Relocatable, FormOf, Take, Flatten, Readable, Encode, TrampolineBytes, RecordOf, Matches, Simulation.Run,
         Throughout, JumpsThrough, MachineCpu, CellHolds, PositionFree, Known, Plus, Loaded, Load, JumpCell, IsSite;
    LoadedRecordJumpsBack(d.memory, mem, patch, site, size, handle, data);
    var ins := Take(Readable(mem, site), size).ins;
    var cpu, cell := MachineCpu(others, holds), Plus(handle, JUMP_BACK_FIELD);
    var ok := CellHolds(cell, Plus(site, size));
    CanMoveIsRelocatable(ins, site, handle, Encode(JmpMem(cell)));
    JumpsThroughMemory(others, holds, cell, Plus(site, size));
    forall i | 0 <= i < |ins| && FormOf(ins[i]).Verbatim? ensures PositionFree(cpu, ok, ins[i]) {
      KnownIsPositionFree(others, holds, ok, ins[i]);
    }
    RecordJumpsBack(mem, patch, site, size, handle, data);
    TrampolineStandsIn(cpu, ok, mem, patch, site, size, handle, data, d, fuel);
  }

  lemma CanMoveIsRelocatable(ins: seq<seq<byte>>, src: word, dst: word, tail: seq<byte>)
    requires Relocatable(ins, src, dst, tail)
    ensures Site(ins)
  {
  }

  lemma RecordJumpsBack(mem: seq<byte>, patch: FunctionPatch, site: word, size: word, handle: word,
                        data: TrampolineData)
    requires IsRecord(mem, patch, site, size, handle, data)
    ensures data.jumpBackAddress == Plus(site, size)
  {
    hide TrampolineBytes, Plus;
  }

  /** An instance without assumptions left: a site that pushes a constant. Run from the trampoline, with
      the record in memory, it pushes the constant and goes on behind the site, if the push does not go
      over the cell. */
  lemma PushingSite(others: (word, seq<byte>, Data) -> Effect<Data>, holds: (nat, Data) -> bool,
                    mem: seq<byte>, patch: FunctionPatch, site: word, imm: word, handle: word, data: TrampolineData,
                    d: Data)
    requires patch.hookOp == OP_JUMP && !patch.naked && IsRecord(mem, patch, site, 5, handle, data)
    requires WellFormed(data) && Loaded(d.memory, handle, data)
    requires site + 5 <= |mem| && mem[site..site + 5] == Encode(PushImm(imm))
    requires Plus(d.regs[ESP], -4) != Plus(handle, JUMP_BACK_FIELD)
    ensures var sp := Plus(d.regs[ESP], -4);
            var length := |TrampolineBytes(mem, patch, site, 5, handle)|;
            Simulation.Run(MachineCpu(others, holds), data.code[..length], handle, 0, d, 2)
            == Left(Plus(site, 5), Data(d.regs[ESP := sp], d.memory[sp := imm]))
  {
    hide Decode, Relocatable, Take, Flatten, Readable, Encode, TrampolineBytes, RecordOf, MachineCpu, Plus, Site, Whole,
         FormOf, Simulation.Run, Throughout, CellHolds, Loaded, Load, JumpCell, IsSite;
    var ins := [Encode(PushImm(imm))];
    var cpu, cell := MachineCpu(others, holds), Plus(handle, JUMP_BACK_FIELD);
    PushSiteShape(mem, site, imm);
    StraightSiteIsRelocatable(ins, site, handle, Encode(JmpMem(cell)));
    assert Known(ins[0]);
    LoadedRecordJumpsBack(d.memory, mem, patch, site, 5, handle, data);
    PushSiteRuns(others, holds, mem, site, imm, cell, d);
    TrampolineStandsInOnMachine(others, holds, mem, patch, site, 5, handle, data, d, 2);
  }

  lemma PushSiteShape(mem: seq<byte>, site: word, imm: word)
    requires site + 5 <= |mem| && mem[site..site + 5] == Encode(PushImm(imm))
    ensures var ins := [Encode(PushImm(imm))];
            && Take(Readable(mem, site), 5) == Scan(ins, Reached) && IsSite(mem, site, 5)
            && Site(ins) && FormOf(ins[0]).Verbatim? && Flatten(ins) == Encode(PushImm(imm)) && |Flatten(ins)| == 5
  {
    hide Decode, Take, Bytes4;
    var push := Encode(PushImm(imm));
    var ins := [push];
    FlattenOne(push);
    StartsAtZero(ins);
    PushLength(push);
    ReadableFront(mem, site, 5);
    TakeFinds(Readable(mem, site), 5, ins);
  }

  lemma PushLength(push: seq<byte>)
    requires |push| == 5 && push[0] == 0x68
    ensures Whole(push)
  {
    assert push[0..] == push && push[..0] == [];
  }

  lemma PushSiteRuns(others: (word, seq<byte>, Data) -> Effect<Data>, holds: (nat, Data) -> bool,
                     mem: seq<byte>, site: word, imm: word, cell: word, d: Data)
    requires site + 5 <= |mem| && mem[site..site + 5] == Encode(PushImm(imm))
    requires Load(d.memory, cell) == Plus(site, 5) && Plus(d.regs[ESP], -4) != cell
    ensures var cpu, sp := MachineCpu(others, holds), Plus(d.regs[ESP], -4);
            var pushed := Data(d.regs[ESP := sp], d.memory[sp := imm]);
            && Simulation.Run(cpu, mem[site..site + 5], site, 0, d, 2) == Left(Plus(site, 5), pushed)
            && Throughout(cpu, CellHolds(cell, Plus(site, 5)), mem[site..site + 5], site, 0, d, 2)
  {
    hide Decode, Encode, Fetch, First, FormOf, Flatten, Perform;
    var cpu, code, sp := MachineCpu(others, holds), mem[site..site + 5], Plus(d.regs[ESP], -4);
    var pushed := Data(d.regs[ESP := sp], d.memory[sp := imm]);
    PushSiteShape(mem, site, imm);
    FirstOfWhole(code, []);
    assert code + [] == code && code[0..] == code;
    OpIsExecuted(others, holds, PushImm(imm));
    PerformPlain(cpu, code, 5, site, 0, d);
    assert Step(cpu, code, site, 0, d) == Running(5, pushed);
    assert Step(cpu, code, site, 5, pushed) == Left(Plus(site, 5), pushed);
    assert CellHolds(cell, Plus(site, 5))(pushed);
    TwoSteps(cpu, CellHolds(cell, Plus(site, 5)), code, site, d, pushed);
  }

  lemma TwoSteps(cpu: Cpu<Data>, ok: Data -> bool, code: seq<byte>, base: word, d: Data, d': Data)
    requires ok(d) && ok(d') && Step(cpu, code, base, 0, d) == Running(5, d') && Step(cpu, code, base, 5, d').Left?
    ensures Simulation.Run(cpu, code, base, 0, d, 2) == Step(cpu, code, base, 5, d')
    ensures Throughout(cpu, ok, code, base, 0, d, 2)
  {
    hide Step;
  }

  // ---------------------------------------------------------------- a naked trampoline on it

  /** The hook at the site, run to the trampoline at `handle`. */
  function HookRun(hookOp: word, site: word, handle: word, tail: seq<byte>, m: Machine): Option<Machine>
    requires GetSizeOfHookOpSize(hookOp).Some?
  {
    Processor.Run(HookBytes(hookOp, site, handle) + tail, site, m, if hookOp <= OP_CALL then 1 else 2)
  }

  /** The frame at the front of a record, run to the callback. */
  function EntryRun(patch: FunctionPatch, handle: word, data: TrampolineData, hooked: Machine): Option<Machine>
  {
    Processor.Run(data.code, handle, hooked, |Entry(patch.hookOp, StubAddress(patch, handle), patch.target)|)
  }

  /** And from the callback's return to the stub. */
  function ExitRun(handle: word, data: TrampolineData, back: Machine): Option<Machine>
  {
    Processor.Run(data.code, handle, back, |Exit()|)
  }

  /** Where a naked trampoline has its stub, when it does not run the site first. */
  function StubAddress(patch: FunctionPatch, handle: word): word
  {
    Plus(handle, FrameSize(patch.hookOp))
  }

  /** The registers of the site as the frame sees them: the register kinds of hook have overwritten
      eax with the address of the trampoline. */
  function Seen(hookOp: word, handle: word, regs: Registers): Registers
  {
    regs[EAX := if hookOp >= OP_JRAX then handle else regs[EAX]]
  }

  /** The context a callback should find for the registers at the site: their stack pointer is given
      as it is below the return address. */
  function ContextSeen(regs: Registers, returnAddress: word): Context
  {
    Context(regs[EFLAGS], regs[EDI], regs[ESI], regs[EBP], regs[EBX], regs[EDX], regs[ECX], regs[EAX],
            Plus(regs[ESP], -4), returnAddress)
  }

  /** The callback returned and left its context as it found it. */
  predicate LeftAlone(entered: Machine, back: Machine)
  {
    Returned(entered, back) && ContextAt(back.memory, entered.regs[ECX]) == ContextAt(entered.memory, entered.regs[ECX])
  }

  /** A naked hook, followed in the bytes that run: from the site through the hook to the record,
      through the frame to the callback, and from the callback's return through the frame to the
      stub. The callback finds the registers as they were at the site, with the address of the stub
      to return to; the one exception is eax, which the register kinds of hook have already
      overwritten with the address of the trampoline. What the callback leaves in the context
      decides every register; if it leaves it alone, the stub is reached with every register as at
      the site, eax again excepted. Of memory, the way there changes only cells below the stack of
      the site, and the way back nothing. */
  lemma NakedHookRoundTrip(mem: seq<byte>, patch: FunctionPatch, flags: word, site: word, size: word, handle: word,
                           data: TrampolineData, tail: seq<byte>, m: Machine, back: Machine)
    requires patch.naked && !patch.execute && IsRecord(mem, patch, site, size, handle, data)
    requires Take(Readable(mem, site), size).stop == Reached
    requires patch.hookOp == HookOpOf(flags) && GetSizeOfHookOpSize(patch.hookOp).Some?
    requires m.eip == site && |tail| < 0x8000_0000
    ensures var hooked := HookRun(patch.hookOp, site, handle, tail, m);
            var next, seen := StubAddress(patch, handle), Seen(patch.hookOp, handle, m.regs);
            && hooked.Some? && hooked.value.eip == handle
            && var entered := EntryRun(patch, handle, data, hooked.value);
               && entered.Some? && entered.value.eip == patch.target
               && ChangedOnlyBelow(m.regs[ESP], m.memory, entered.value.memory)
               && var at := entered.value.regs[ECX];
                  && ContextAt(entered.value.memory, at) == ContextSeen(seen, next)
                  && (Returned(entered.value, back) ==>
                        var left := ContextAt(back.memory, at);
                        var end := ExitRun(handle, data, back);
                        && end.Some? && end.value.regs == RegistersOf(left) && end.value.memory == back.memory
                        && (left.esp == Plus(m.regs[ESP], -4) ==> end.value.eip == left.returnAddress))
                  && (LeftAlone(entered.value, back) ==>
                        ExitRun(handle, data, back) == Some(Machine(seen, next, back.memory)))
  {
    hide Take, Readable, HookBytes, Processor.Run, Plus, TrampolineBytes, RecordOf, EncodeAll, FrameBytes, ContextAt,
         RegistersOf, Entry, Exit, Frame, ContextOf, Returned, ChangedOnlyBelow, Load;
    var hookOp := patch.hookOp;
    var next := StubAddress(patch, handle);
    HookReachesTarget(flags, site, handle, m, tail);
    var hooked := HookRun(hookOp, site, handle, tail, m).value;
    CodeOfNakedTrampoline(mem, patch, site, size, handle, data);
    FrameBytesAreOps(hookOp, next, patch.target);
    RecordCode(mem, patch, site, size, handle, data);
    var after := data.code[FrameSize(hookOp)..];
    assert data.code == [] + EncodeAll(Frame(hookOp, next, patch.target)) + after;
    WrapWord(handle);
    FrameRoundTrip([], after, handle, hookOp, next, patch.target, hooked, back);
    ContextOfHooked(hookOp, hooked, m, handle, next);
    var entered := EntryRun(patch, handle, data, hooked).value;
    HookedMemory(if hookOp == OP_CALL then Plus(site, 5) else handle, hooked, m, entered.memory);
  }

  lemma RecordCode(mem: seq<byte>, patch: FunctionPatch, site: word, size: word, handle: word, data: TrampolineData)
    requires IsRecord(mem, patch, site, size, handle, data)
    ensures |data.code| == CODE_END
  {
    hide TrampolineBytes;
  }

  lemma ContextOfHooked(hookOp: word, hooked: Machine, m: Machine, handle: word, next: word)
    requires hookOp == OP_CALL ==> hooked.regs == m.regs[ESP := Plus(m.regs[ESP], -4)]
    requires hookOp == OP_JUMP || hookOp == OP_PUSH ==> hooked.regs == m.regs
    requires hookOp >= OP_JRAX ==> hooked.regs == m.regs[EAX := handle]
    requires hookOp == OP_CALL || hookOp == OP_JUMP || hookOp == OP_PUSH || hookOp >= OP_JRAX
    ensures var seen := Seen(hookOp, handle, m.regs);
            && ContextOf(hookOp, hooked, next) == ContextSeen(seen, next)
            && ReturnCell(hookOp, hooked) == Plus(m.regs[ESP], -4)
            && Plus(ReturnCell(hookOp, hooked), 4) == m.regs[ESP]
            && seen == if hookOp == OP_CALL then hooked.regs[ESP := Plus(hooked.regs[ESP], 4)] else hooked.regs
  {
    hide Plus;
    PlusNothing(m.regs[ESP]);
    PlusPlus(m.regs[ESP], -4, 4);
    PlusNothing(Plus(m.regs[ESP], -4));
    assert m.regs[ESP := Plus(m.regs[ESP], -4)][ESP := m.regs[ESP]] == m.regs;
    assert m.regs[EAX := m.regs[EAX]] == m.regs;
  }

  /** What the hook itself pushes lies in the first cell below the stack of the site. */
  lemma HookedMemory(pushed: word, hooked: Machine, m: Machine, after: map<word, word>)
    requires hooked.memory == m.memory || hooked.memory == m.memory[Plus(m.regs[ESP], -4) := pushed]
    requires ChangedOnlyBelow(m.regs[ESP], hooked.memory, after)
    ensures ChangedOnlyBelow(m.regs[ESP], m.memory, after)
  {
    hide Plus, Cell;
    FirstCell(m.regs[ESP]);
    forall a: word | !IsCell(m.regs[ESP], FRAME_CELLS, a) ensures Load(after, a) == Load(m.memory, a) {
      assert a != Cell(m.regs[ESP], 0);
      assert Load(after, a) == Load(hooked.memory, a);
    }
  }

  /** A naked hook on this machine, from the site to the end of the site. From the state in which the
      hook is reached, hook and frame run to the callback; from the state in which the callback comes
      back, if it left its context alone, the frame runs to the stub, and the stub does what the
      site's own code does from the registers at the site and the memory the callback left. An idle
      callback leaves memory as it was but for cells below the stack. The callback must leave the record
      in memory, and the site's own run the cell alone that the trampoline's jump names. */
  lemma NakedHookStandsInOnMachine(others: (word, seq<byte>, Data) -> Effect<Data>, holds: (nat, Data) -> bool,
                                   mem: seq<byte>, patch: FunctionPatch, flags: word, site: word, size: word,
                                   handle: word, data: TrampolineData, tail: seq<byte>, m: Machine, back: Machine,
                                   fuel: nat)
    requires patch.naked && !patch.execute && IsRecord(mem, patch, site, size, handle, data)
    requires patch.hookOp == HookOpOf(flags) && GetSizeOfHookOpSize(patch.hookOp).Some?
    requires m.eip == site && |tail| < 0x8000_0000
    requires IsSite(mem, site, size) && 0 < size && site + size <= |mem|
    requires var ins := Take(Readable(mem, site), size).ins;
             && Relocatable(ins, site, StubAddress(patch, handle), Encode(JmpMem(Plus(handle, JUMP_BACK_FIELD))))
             && forall i | 0 <= i < |ins| && FormOf(ins[i]).Verbatim? :: Known(ins[i])
    requires WellFormed(data) && Loaded(back.memory, handle, data)
    requires var cell := Plus(handle, JUMP_BACK_FIELD);
             Throughout(MachineCpu(others, holds), CellHolds(cell, Load(back.memory, cell)),
                        mem[site..site + size], site, 0, Data(Seen(patch.hookOp, handle, m.regs), back.memory), fuel)
    ensures var ins := Take(Readable(mem, site), size).ins;
            var frame, length := FrameSize(patch.hookOp), |TrampolineBytes(mem, patch, site, size, handle)|;
            var next, cpu := StubAddress(patch, handle), MachineCpu(others, holds);
            var hooked := HookRun(patch.hookOp, site, handle, tail, m);
            && hooked.Some? && EntryRun(patch, handle, data, hooked.value).Some? && frame <= length <= |data.code|
            && var entered := EntryRun(patch, handle, data, hooked.value).value;
               && entered.eip == patch.target
               && ChangedOnlyBelow(m.regs[ESP], m.memory, entered.memory)
               && (LeftAlone(entered, back) ==>
                     var d := Data(Seen(patch.hookOp, handle, m.regs), back.memory);
                     && ExitRun(handle, data, back) == Some(Machine(d.regs, next, d.memory))
                     && Matches(ins, Copies(ins, site, next),
                                Simulation.Run(cpu, mem[site..site + size], site, 0, d, fuel),
                                Simulation.Run(cpu, data.code[frame..length], next, 0, d, fuel)))
  {
    hide Relocatable, FormOf, Take, Flatten, Readable, Encode, TrampolineBytes, RecordOf, Matches, Simulation.Run,
         Throughout, JumpsThrough, MachineCpu, CellHolds, PositionFree, Known, Plus, HookRun, EntryRun, ExitRun,
         LeftAlone, ChangedOnlyBelow, EncodeAll, Returned, ContextAt, RegistersOf, Loaded, Load, JumpCell;
    LoadedRecordJumpsBack(back.memory, mem, patch, site, size, handle, data);
    var ins := Take(Readable(mem, site), size).ins;
    var cpu, cell := MachineCpu(others, holds), Plus(handle, JUMP_BACK_FIELD);
    var ok, next := CellHolds(cell, Plus(site, size)), StubAddress(patch, handle);
    NakedHookRoundTrip(mem, patch, flags, site, size, handle, data, tail, m, back);
    CanMoveIsRelocatable(ins, site, next, Encode(JmpMem(cell)));
    JumpsThroughMemory(others, holds, cell, Plus(site, size));
    forall i | 0 <= i < |ins| && FormOf(ins[i]).Verbatim? ensures PositionFree(cpu, ok, ins[i]) {
      KnownIsPositionFree(others, holds, ok, ins[i]);
    }
    RecordJumpsBack(mem, patch, site, size, handle, data);
    RecordStartsWithTrampoline(mem, patch, site, size, handle, data);
    NakedTrampolineStandsIn(cpu, ok, mem, patch, site, size, handle, data,
                            Data(Seen(patch.hookOp, handle, m.regs), back.memory), fuel);
  }
}
