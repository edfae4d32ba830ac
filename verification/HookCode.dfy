/** The code written over a hook site: the transfer to the hook target, the padding behind it,
    and the jump back at the end of a trampoline. */
module HookCode {
  import opened Words
  import opened Assembler
  import opened OpcodeGrid
  import opened Lde
  import opened Relocation
  import opened Processor

  const OP_JUMP: word := 0x0000_0000
  const OP_CALL: word := 0x1000_0000
  const OP_PUSH: word := 0x2000_0000
  const OP_JRAX: word := 0x3000_0000
  const OP_JRDI: word := 0x9000_0000

  const TRAMPOLINE_SIZE := 0x40

  /** The hook kind FunctionPatch takes from a flag word: its top four bits. */
  function HookOpOf(flags: word): word
  {
    flags / 0x1000_0000 * 0x1000_0000
  }

  /** GetSizeOfHookOpSize; none where the source returns the largest integer. */
  function GetSizeOfHookOpSize(hookOp: word): Option<nat>
  {
    if hookOp == OP_PUSH then Some(6)
    else if hookOp == OP_CALL || hookOp == OP_JUMP then Some(5)
    else if OP_JRAX <= hookOp <= OP_JRDI then Some(7)
    else None
  }

  /** The bytes of the hook. In the last case the register number the source works out from the
      hook kind only reaches the low bits, which are zero for every kind FunctionPatch makes. */
  function HookBytes(hookOp: word, sourceIp: word, target: word): (code: seq<byte>)
    requires GetSizeOfHookOpSize(hookOp).Some?
    ensures |code| == GetSizeOfHookOpSize(hookOp).value
  {
    if hookOp == OP_CALL || hookOp == OP_JUMP then
      [if hookOp == OP_CALL then 0xE8 else 0xE9] + Bytes4(Wrap(target - Plus(sourceIp, 5)))
    else if hookOp == OP_PUSH then
      [0x68] + Bytes4(target) + [0xC3]
    else
      var index := hookOp - OP_JRAX;
      var jump := (0xE0FF + index) % 0x1_0000;
      [(0xB8 + index % 0x100) % 0x100] + Bytes4(target) + [jump % 0x100, jump / 0x100]
  }

  /** GenerateHookCode; false where the source returns STATUS_INVALID_PARAMETER. */
  method GenerateHookCode(buffer: array<byte>, sourceIp: word, target: word, hookOp: word, hookOpSize: nat)
    returns (ok: bool)
    requires GetSizeOfHookOpSize(hookOp).Some? ==> hookOpSize == GetSizeOfHookOpSize(hookOp).value <= buffer.Length
    modifies buffer
    ensures ok == GetSizeOfHookOpSize(hookOp).Some?
    ensures buffer[..] == if ok then Splice(old(buffer[..]), 0, HookBytes(hookOp, sourceIp, target))
                          else old(buffer[..])
  {
    hide Splice, Wrap, Bytes4, Plus;
    ghost var was := buffer[..];
    if hookOp == OP_CALL || hookOp == OP_JUMP {
      var op: byte := if hookOp == OP_CALL then 0xE8 else 0xE9;
      Store(buffer, 0, [op]);
      Store(buffer, 1, Bytes4(Wrap(target - Plus(sourceIp, hookOpSize))));
      SpliceTwice(was, 0, [op], Bytes4(Wrap(target - Plus(sourceIp, 5))));
    } else if hookOp == OP_PUSH {
      Store(buffer, 0, [0x68]);
      Store(buffer, 1, Bytes4(target));
      SpliceTwice(was, 0, [0x68], Bytes4(target));
      Store(buffer, 5, [0xC3]);
      SpliceTwice(was, 0, [0x68] + Bytes4(target), [0xC3]);
    } else {
      if hookOp < OP_JRAX || hookOp > OP_JRDI { return false; }
      var index := hookOp - OP_JRAX;
      var mov: byte := (0xB8 + index % 0x100) % 0x100;
      var jump := (0xE0FF + index) % 0x1_0000;
      Store(buffer, 0, [mov]);
      Store(buffer, 1, Bytes4(target));
      SpliceTwice(was, 0, [mov], Bytes4(target));
      Store(buffer, 5, [jump % 0x100, jump / 0x100]);
      SpliceTwice(was, 0, [mov] + Bytes4(target), [jump % 0x100, jump / 0x100]);
    }
    return true;
  }

  // ---------------------------------------------------------------- where the hook goes

  /** The hook as instructions. */
  function HookOps(hookOp: word, sourceIp: word, target: word): seq<Op>
  {
    if hookOp == OP_CALL then [CallRel(Wrap(target - Plus(sourceIp, 5)))]
    else if hookOp == OP_JUMP then [JmpRel(Wrap(target - Plus(sourceIp, 5)))]
    else if hookOp == OP_PUSH then [PushImm(target), Ret]
    else [MovImm(EAX, target), JmpReg(EAX)]
  }

  /** The hook kinds by the top four bits of the flags: 0 a jump, 1 a call, 2 a push and return, 3 to
      9 through a register, and no others. */
  lemma KindsOfFlags(flags: word)
    ensures var kind := flags / 0x1000_0000;
            var hookOp := HookOpOf(flags);
            && (hookOp == OP_JUMP <==> kind == 0) && (hookOp == OP_CALL <==> kind == 1)
            && (hookOp == OP_PUSH <==> kind == 2) && (hookOp >= OP_JRAX <==> kind >= 3)
            && GetSizeOfHookOpSize(hookOp)
               == if kind <= 1 then Some(5) else if kind == 2 then Some(6) else if kind <= 9 then Some(7) else None
  {
  }

  lemma HookBytesAreOps(flags: word, sourceIp: word, target: word)
    requires GetSizeOfHookOpSize(HookOpOf(flags)).Some?
    ensures HookBytes(HookOpOf(flags), sourceIp, target) == EncodeAll(HookOps(HookOpOf(flags), sourceIp, target))
  {
    hide Wrap, Bytes4;
    var ops := HookOps(HookOpOf(flags), sourceIp, target);
    if |ops| == 1 {
      assert ops[1..] == [];
    } else {
      assert ops[1..] == [ops[1]] && [ops[1]][1..] == [];
      assert EncodeAll(ops[1..]) == Encode(ops[1]);
    }
  }

  /** For every hook kind, site and target: running the hook from the site brings control to the
      target, in one or two steps. A call hook leaves the address behind the hook on the stack; the
      others leave the stack pointer as it was, a push hook the target below it. Only the register
      kinds touch a register, and whichever register was asked for, it is eax. */
  lemma HookReachesTarget(flags: word, sourceIp: word, target: word, m: Machine, tail: seq<byte>)
    requires GetSizeOfHookOpSize(HookOpOf(flags)).Some? && m.eip == sourceIp && |tail| < 0x8000_0000
    ensures var hookOp := HookOpOf(flags);
            var run := Run(HookBytes(hookOp, sourceIp, target) + tail, sourceIp, m, if hookOp <= OP_CALL then 1 else 2);
            && run.Some? && run.value.eip == target
            && (hookOp == OP_CALL ==> run.value == PushWord(m, Plus(sourceIp, 5)).(eip := target))
            && (hookOp == OP_JUMP ==> run.value == m.(eip := target))
            && (hookOp == OP_PUSH ==>
                  run.value == Machine(m.regs, target, m.memory[Plus(m.regs[ESP], -4) := target]))
            && (hookOp >= OP_JRAX ==> run.value == m.(eip := target, regs := m.regs[EAX := target]))
  {
    hide Encode, Wrap, HookBytes, Run, Bytes4;
    var hookOp := HookOpOf(flags);
    var ops := HookOps(hookOp, sourceIp, target);
    HookBytesAreOps(flags, sourceIp, target);
    assert [] + EncodeAll(ops) + tail == HookBytes(hookOp, sourceIp, target) + tail;
    WrapWord(sourceIp);
    RunIsExecAll([], ops, tail, sourceIp, m);
    EncodedSizes(ops[0]);
    HopLands(sourceIp, target);
    PushThenRet(m.regs[ESP]);
    if |ops| == 1 {
      assert ops[1..] == [];
    } else {
      ExecTwo(ops, m);
      assert m.regs[ESP := Plus(m.regs[ESP], -4)][ESP := m.regs[ESP]] == m.regs;
    }
  }

  lemma ExecTwo(ops: seq<Op>, m: Machine)
    requires |ops| == 2
    ensures var m1 := Exec(ops[0], m.(eip := Wrap(m.eip + |Encode(ops[0])|)));
            ExecAll(ops, m) == Exec(ops[1], m1.(eip := Wrap(m1.eip + |Encode(ops[1])|)))
  {
    hide Exec, Encode, Wrap;
    var m1 := Exec(ops[0], m.(eip := Wrap(m.eip + |Encode(ops[0])|)));
    assert ops[1..][0] == ops[1] && ops[1..][1..] == [];
    assert ExecAll(ops, m) == ExecAll(ops[1..], m1);
    var m2 := Exec(ops[1], m1.(eip := Wrap(m1.eip + |Encode(ops[1])|)));
    assert ExecAll(ops[1..], m1) == ExecAll(ops[1..][1..], m2);
  }

  lemma EncodedSizes(op: Op)
    ensures op.CallRel? || op.JmpRel? ==> |Encode(op)| == 5
  {
  }

  lemma HopLands(sourceIp: word, target: word)
    ensures Wrap(Wrap(sourceIp + 5) + Wrap(target - Plus(sourceIp, 5))) == target
  {
    WrapSum(target - Plus(sourceIp, 5), Plus(sourceIp, 5));
  }

  lemma PushThenRet(sp: word)
    ensures Plus(Plus(sp, -4), 4) == sp
  {
  }

  /** GetCallDestination. */
  function GetCallDestination(code: seq<byte>, address: word): word
    requires |code| >= 5
  {
    Wrap(SignedWord(Word4(code[1..])) + address + 4 + 1)
  }

  /** Read back at the patched site, a call or jump hook names its target. */
  lemma CallDestinationIsTarget(hookOp: word, sourceIp: word, target: word, tail: seq<byte>)
    requires hookOp == OP_CALL || hookOp == OP_JUMP
    ensures GetCallDestination(HookBytes(hookOp, sourceIp, target) + tail, sourceIp) == target
  {
    hide Wrap, Bytes4, Word4, SignedWord;
    var disp := Wrap(target - Plus(sourceIp, 5));
    var code := HookBytes(hookOp, sourceIp, target) + tail;
    assert code[1..] == Bytes4(disp) + tail;
    Word4Of(code[1..], disp, tail);
    DisplacementReaches(target, Plus(sourceIp, 5));
    WrapSum(sourceIp + 5, SignedWord(disp));
  }

  // ---------------------------------------------------------------- padding

  /** The filler PatchNop knows; it has none longer than seven bytes. */
  function NopBytes(n: nat): (code: seq<byte>)
    requires n <= 7
    ensures |code| == n
  {
    match n
    case 0 => []
    case 1 => [0x90]
    case 2 => [0x8B, 0xC0]
    case 3 => [0x8D, 0x40, 0x00]
    case 4 => [0x8D, 0x74, 0x26, 0x00]
    case 5 => [0x8B, 0xC0, 0x8D, 0x40, 0x00]
    case 6 => [0x8D, 0x80, 0x00, 0x00, 0x00, 0x00]
    case _ => [0x8D, 0xB4, 0x26, 0x00, 0x00, 0x00, 0x00]
  }

  /** PatchNop: stores of words and half-words, some overlapping; nothing above seven bytes. */
  method PatchNop(buffer: array<byte>, at: nat, bytesToPatch: nat)
    requires at + bytesToPatch <= buffer.Length
    modifies buffer
    ensures buffer[..] == if bytesToPatch <= 7 then Splice(old(buffer[..]), at, NopBytes(bytesToPatch))
                          else old(buffer[..])
  {
    hide Splice, Bytes4;
    ghost var was := buffer[..];
    FillerWords();
    match bytesToPatch {
      case 0 => SpliceNothing(was, at);
      case 1 => Store(buffer, at, [0x90]);
      case 2 => Store2(buffer, at, 0xC08B);
      case 3 =>
        Store2(buffer, at, 0x408D);
        Store(buffer, at + 2, [0x00]);
        SpliceTwice(was, at, [0x8D, 0x40], [0x00]);
      case 4 => Store4(buffer, at, 0x0026748D);
      case 5 =>
        Store(buffer, at, [0x8B]);
        Store4(buffer, at + 1, 0x408DC0);
        SpliceTwice(was, at, [0x8B], Bytes4(0x408DC0));
      case 6 =>
        Store4(buffer, at, 0x808D);
        Store2(buffer, at + 4, 0);
        SpliceTwice(was, at, Bytes4(0x808D), [0x00, 0x00]);
      case 7 =>
        Store4(buffer, at, 0x0026B48D);
        Store4(buffer, at + 3, 0);
        SpliceOverlap(was, at, Bytes4(0x0026B48D), 3, Bytes4(0));
      case _ =>
    }
  }

  lemma FillerWords()
    ensures Bytes4(0x0026748D) == [0x8D, 0x74, 0x26, 0x00] && Bytes4(0x408DC0) == [0xC0, 0x8D, 0x40, 0x00]
    ensures Bytes4(0x808D) == [0x8D, 0x80, 0x00, 0x00] && Bytes4(0) == [0x00, 0x00, 0x00, 0x00]
    ensures Bytes4(0x0026B48D) == [0x8D, 0xB4, 0x26, 0x00]
  {
  }

  method Store2(buffer: array<byte>, at: nat, v: nat)
    requires at + 2 <= buffer.Length && v < 0x1_0000
    modifies buffer
    ensures buffer[..] == Splice(old(buffer[..]), at, [v % 0x100, v / 0x100])
  {
    Store(buffer, at, [v % 0x100, v / 0x100]);
  }

  method Store4(buffer: array<byte>, at: nat, v: word)
    requires at + 4 <= buffer.Length
    modifies buffer
    ensures buffer[..] == Splice(old(buffer[..]), at, Bytes4(v))
  {
    Store(buffer, at, Bytes4(v));
  }

  /** The filler as instructions: nop, mov eax,eax and lea forms that change nothing. */
  function NopList(n: nat): seq<seq<byte>>
    requires n <= 7
  {
    if n == 0 then [] else if n == 5 then [NopBytes(2), NopBytes(3)] else [NopBytes(n)]
  }

  /** The filler is whole instructions, so a call hook returns into code that runs on to the
      byte behind the site. */
  lemma NopIsInstructions(n: nat)
    requires n <= 7
    ensures Instructions(NopBytes(n), n) == Some(NopList(n))
  {
    hide Decode, Instructions, NopBytes;
    var list := NopList(n);
    forall i | 0 <= i < |list| ensures Whole(list[i]) {
      SingleNop(if n == 5 then i + 2 else n);
    }
    NopFlat(n);
    CutRecoversBoundaries(list, []);
    assert NopBytes(n) + [] == NopBytes(n);
  }

  /** The instruction changes nothing but the instruction pointer: it is nop, or mov of a register to
      itself, or lea of a register from an address that is always the register. */
  ghost predicate DoesNothing(ins: seq<byte>)
  {
    || ins == [0x90]
    || exists i :: WellFormed(i) && i.prefixes == [] && Assembled(i) == ins && KeepsRegisters(i)
  }

  ghost predicate KeepsRegisters(i: Instruction)
    requires WellFormed(i) && i.prefixes == []
  {
    || (i.op == 0x8B && i.operand == Register(i.reg))
    || (i.op == 0x8D && !i.operand.Register?
        && forall regs: seq<word> | |regs| == 8 :: EffectiveAddress(i.operand, regs) == regs[i.reg])
  }

  /** The filler of every length does nothing: no register, flag or memory changes. */
  lemma NopDoesNothing(n: nat, k: nat)
    requires n <= 7 && k < |NopList(n)|
    ensures DoesNothing(NopList(n)[k])
  {
    hide DoesNothing, Bytes4;
    FillerWords();
    if n == 1 {
      DoesNothingIsNop();
    } else if n == 4 {
      LeaDoesNothing(Instruction([], 0x8D, 6, Indexed(0, 4, 6, Disp8(0)), []), NopBytes(4));
    } else if n == 6 {
      LeaDoesNothing(Instruction([], 0x8D, 0, Based(0, Disp32(0)), []), NopBytes(6));
    } else if n == 7 {
      LeaDoesNothing(Instruction([], 0x8D, 6, Indexed(0, 4, 6, Disp32(0)), []), NopBytes(7));
    } else if n == 3 || k == 1 {
      LeaDoesNothing(Instruction([], 0x8D, 0, Based(0, Disp8(0)), []), NopBytes(3));
    } else {
      MovDoesNothing();
    }
  }

  lemma DoesNothingIsNop()
    ensures DoesNothing(NopBytes(1))
  {
  }

  lemma MovDoesNothing()
    ensures DoesNothing(NopBytes(2))
  {
    var i := Instruction([], 0x8B, 0, Register(0), []);
    assert WellFormed(i) && Assembled(i) == NopBytes(2) && KeepsRegisters(i);
  }

  lemma LeaDoesNothing(i: Instruction, ins: seq<byte>)
    requires i.prefixes == [] && i.op == 0x8D && i.reg < 8 && i.imm == []
    requires Exists(i.operand, false) && [0x8D] + OperandBytes(i.reg, i.operand, false) == ins
    requires || (i.operand.Based? && i.operand.base == i.reg && DispValue(i.operand.disp) == 0)
             || (i.operand.Indexed? && i.operand.base == i.reg && i.operand.index == 4
                 && DispValue(i.operand.disp) == 0)
    ensures DoesNothing(ins)
  {
    hide OperandBytes, Exists;
    LeaKind();
    IsWellFormed(i);
    BodyParts(i);
    assert Assembled(i) == Body(i);
    assert AfterOpcode(i) == OperandBytes(i.reg, i.operand, false);
    LeaKeeps(i);
  }

  lemma LeaKind()
    ensures Kind(0x8D) == 'M'
  {
  }

  lemma LeaKeeps(i: Instruction)
    requires WellFormed(i) && i.prefixes == [] && i.op == 0x8D
    requires || (i.operand.Based? && i.operand.base == i.reg && DispValue(i.operand.disp) == 0)
             || (i.operand.Indexed? && i.operand.base == i.reg && i.operand.index == 4
                 && DispValue(i.operand.disp) == 0)
    ensures KeepsRegisters(i)
  {
    hide Kind, ImmBytes;
    forall regs: seq<word> | |regs| == 8 ensures EffectiveAddress(i.operand, regs) == regs[i.reg] {
      WrapWord(regs[i.reg]);
    }
  }

  lemma SingleNop(n: nat)
    requires 0 < n <= 7 && n != 5
    ensures Whole(NopBytes(n))
  {
    hide ImmSize;
    var code := NopBytes(n);
    assert code[0..] == code && code[..0] == [];
    assert BodySize(code, false, false) == Some(n) by { NopSize(n); }
  }

  lemma NopSize(n: nat)
    requires 0 < n <= 7 && n != 5
    ensures BodySize(NopBytes(n), false, false) == Some(n)
  {
  }

  lemma NopFlat(n: nat)
    requires n <= 7
    ensures Flatten(NopList(n)) == NopBytes(n)
  {
    var list := NopList(n);
    if |list| == 2 {
      assert list[1..] == [NopBytes(3)] && [NopBytes(3)][1..] == [];
    } else if |list| == 1 {
      assert list[1..] == [];
    }
  }

  // ---------------------------------------------------------------- the jump back

  /** GenerateJumpBack; returns where the trampoline pointer is left, which is two bytes behind the
      six it wrote. */
  method GenerateJumpBack(trampoline: array<byte>, at: nat, addressOfJumpAddress: word) returns (end: nat)
    requires at + 6 <= trampoline.Length
    modifies trampoline
    ensures end == at + 8 && trampoline[..] == Splice(old(trampoline[..]), at, Encode(JmpMem(addressOfJumpAddress)))
  {
    ghost var was := trampoline[..];
    Store(trampoline, at, [0xFF, 0x25]);
    Store(trampoline, at + 2, Bytes4(addressOfJumpAddress));
    SpliceTwice(was, at, [0xFF, 0x25], Bytes4(addressOfJumpAddress));
    end := at + 2;
    return end + 2 + 4;
  }

  lemma JumpBackSize(at: word)
    ensures |Encode(JmpMem(at))| == 6
  {
  }
}
