/** The few x86 instructions the hook engine writes itself, as bytes and as a machine that
    runs them. Data memory is kept in 32-bit cells apart from the code being run. */
module Processor {
  import opened Words
  import opened OpcodeGrid
  import opened Lde
  import opened Assembler

  // Register numbers as the instruction encodings use them; the flags come last.
  const EAX := 0
  const ECX := 1
  const EDX := 2
  const EBX := 3
  const ESP := 4
  const EBP := 5
  const ESI := 6
  const EDI := 7
  const EFLAGS := 8

  type Reg = r: nat | r < 9
  type Gpr = r: nat | r < 8
  type Registers = s: seq<word> | |s| == 9 witness [0, 0, 0, 0, 0, 0, 0, 0, 0]

  datatype Machine = Machine(regs: Registers, eip: word, memory: map<word, word>)

  function Load(memory: map<word, word>, at: word): word
  {
    if at in memory then memory[at] else 0
  }

  datatype Op =
    | Push(r: Reg)                 // push r32, pushfd
    | Pop(r: Reg)                  // pop r32, popfd
    | PushImm(imm: word)           // push imm32
    | MovImm(reg: Gpr, imm: word)  // mov r32, imm32
    | SaveEax(off: byte)           // mov [esp + disp8], eax
    | EcxFromEsp                   // lea ecx, [esp]
    | CallReg(reg: Gpr)            // call r32
    | JmpReg(reg: Gpr)             // jmp r32
    | JmpMem(at: word)             // jmp [m32]
    | JmpRel(disp: word)           // jmp rel32
    | CallRel(disp: word)          // call rel32
    | Ret                          // ret

  // ---------------------------------------------------------------- bytes

  function Encode(op: Op): (code: seq<byte>)
    ensures 0 < |code| <= 6
  {
    match op
    case Push(r) => if r == EFLAGS then [0x9C] else [0x50 + r]
    case Pop(r) => if r == EFLAGS then [0x9D] else [0x58 + r]
    case PushImm(w) => [0x68] + Bytes4(w)
    case MovImm(r, w) => [0xB8 + r] + Bytes4(w)
    case SaveEax(disp) => [0x89, 0x44, 0x24, disp]
    case EcxFromEsp => [0x8D, 0x0C, 0x24]
    case CallReg(r) => [0xFF, 0xD0 + r]
    case JmpReg(r) => [0xFF, 0xE0 + r]
    case JmpMem(at) => [0xFF, 0x25] + Bytes4(at)
    case JmpRel(disp) => [0xE9] + Bytes4(disp)
    case CallRel(disp) => [0xE8] + Bytes4(disp)
    case Ret => [0xC3]
  }

  function EncodeAll(ops: seq<Op>): seq<byte>
  {
    if ops == [] then [] else Encode(ops[0]) + EncodeAll(ops[1..])
  }

  /** The instruction at the start of `code`, if it is one of the above. */
  function Fetch(code: seq<byte>): Option<Op>
  {
    if |code| == 0 then None
    else if code[0] == 0x9C then Some(Push(EFLAGS))
    else if code[0] == 0x9D then Some(Pop(EFLAGS))
    else if 0x50 <= code[0] < 0x58 then Some(Push(code[0] - 0x50))
    else if 0x58 <= code[0] < 0x60 then Some(Pop(code[0] - 0x58))
    else if code[0] == 0xC3 then Some(Ret)
    else if |code| < 2 then None
    else if code[0] == 0xFF && 0xD0 <= code[1] < 0xD8 then Some(CallReg(code[1] - 0xD0))
    else if code[0] == 0xFF && 0xE0 <= code[1] < 0xE8 then Some(JmpReg(code[1] - 0xE0))
    else if |code| >= 3 && code[..3] == [0x8D, 0x0C, 0x24] then Some(EcxFromEsp)
    else if |code| >= 4 && code[..3] == [0x89, 0x44, 0x24] then Some(SaveEax(code[3]))
    else if |code| < 5 then None
    else if code[0] == 0x68 then Some(PushImm(Word4(code[1..])))
    else if 0xB8 <= code[0] < 0xC0 then Some(MovImm(code[0] - 0xB8, Word4(code[1..])))
    else if code[0] == 0xE9 then Some(JmpRel(Word4(code[1..])))
    else if code[0] == 0xE8 then Some(CallRel(Word4(code[1..])))
    else if |code| >= 6 && code[0] == 0xFF && code[1] == 0x25 then Some(JmpMem(Word4(code[2..])))
    else None
  }

  /** Fetching reads back what was encoded, whatever follows. */
  lemma FetchEncode(op: Op, tail: seq<byte>)
    ensures Fetch(Encode(op) + tail) == Some(op)
  {
    hide Word4, Bytes4;
    var code := Encode(op) + tail;
    match op {
      case PushImm(w) => Word4Of(code[1..], w, tail);
      case MovImm(_, w) => Word4Of(code[1..], w, tail);
      case JmpRel(w) => Word4Of(code[1..], w, tail);
      case CallRel(w) => Word4Of(code[1..], w, tail);
      case JmpMem(w) => Word4Of(code[2..], w, tail);
      case _ =>
    }
  }

  lemma Word4Of(code: seq<byte>, w: word, tail: seq<byte>)
    requires code == Bytes4(w) + tail
    ensures |code| >= 4 && Word4(code) == w
  {
    assert code[0] == Bytes4(w)[0] && code[1] == Bytes4(w)[1] && code[2] == Bytes4(w)[2] && code[3] == Bytes4(w)[3];
    assert Word4(Bytes4(w)) == w;
  }

  /** The same instructions as the assembler knows them. */
  function InstructionOf(op: Op): Instruction
  {
    match op
    case Push(r) => Instruction([], if r == EFLAGS then 0x9C else 0x50 + r, 0, Operand.Register(0), [])
    case Pop(r) => Instruction([], if r == EFLAGS then 0x9D else 0x58 + r, 0, Operand.Register(0), [])
    case PushImm(w) => Instruction([], 0x68, 0, Operand.Register(0), Bytes4(w))
    case MovImm(r, w) => Instruction([], 0xB8 + r, 0, Operand.Register(0), Bytes4(w))
    case SaveEax(disp) => Instruction([], 0x89, EAX, Indexed(0, 4, ESP, Disp8(disp)), [])
    case EcxFromEsp => Instruction([], 0x8D, ECX, Indexed(0, 4, ESP, NoDisp), [])
    case CallReg(r) => Instruction([], 0xFF, 2, Operand.Register(r), [])
    case JmpReg(r) => Instruction([], 0xFF, 4, Operand.Register(r), [])
    case JmpMem(at) => Instruction([], 0xFF, 4, Absolute(at), [])
    case JmpRel(disp) => Instruction([], 0xE9, 0, Operand.Register(0), Bytes4(disp))
    case CallRel(disp) => Instruction([], 0xE8, 0, Operand.Register(0), Bytes4(disp))
    case Ret => Instruction([], 0xC3, 0, Operand.Register(0), [])
  }

  /** Their encodings are the assembler's. */
  lemma OpIsAssembled(op: Op)
    ensures WellFormed(InstructionOf(op)) && Assembled(InstructionOf(op)) == Encode(op) && Whole(Encode(op))
  {
    hide Decode, Kind, WellFormed, InstructionOf, Encode, Body;
    var i := InstructionOf(op);
    OpIsWellFormed(op);
    OpParts(op);
    BodyParts(i);
    assert i.prefixes + Body(i) == Body(i);
    AssembledIsDecoded(i, []);
    assert Assembled(i) + [] == Assembled(i);
  }

  lemma OpIsWellFormed(op: Op)
    ensures WellFormed(InstructionOf(op)) && InstructionOf(op).prefixes == []
  {
    hide Bytes4, Kind, WellFormed;
    OpKinds(op);
    IsWellFormed(InstructionOf(op));
  }

  lemma OpParts(op: Op)
    requires WellFormed(InstructionOf(op))
    ensures OpcodeBytes(InstructionOf(op).op) + AfterOpcode(InstructionOf(op)) == Encode(op)
  {
    hide Bytes4, Kind, WellFormed;
    OpKinds(op);
  }

  lemma OpKinds(op: Op)
    ensures Kind(InstructionOf(op).op)
         == match op
            case PushImm(_) => 'z'
            case MovImm(_, _) => 'z'
            case JmpRel(_) => 'z'
            case CallRel(_) => 'z'
            case Push(_) => '.'
            case Pop(_) => '.'
            case Ret => '.'
            case _ => 'M'
  {
    hide Bytes4;
  }

  // ---------------------------------------------------------------- execution

  function PushWord(m: Machine, w: word): Machine
  {
    var sp := Plus(m.regs[ESP], -4);
    m.(regs := m.regs[ESP := sp], memory := m.memory[sp := w])
  }

  /** One instruction, with the instruction pointer already moved behind it. */
  function Exec(op: Op, m: Machine): Machine
  {
    match op
    case Push(r) => PushWord(m, m.regs[r])
    case Pop(r) =>
      var w := Load(m.memory, m.regs[ESP]);
      m.(regs := m.regs[ESP := Plus(m.regs[ESP], 4)][r := w])
    case PushImm(w) => PushWord(m, w)
    case MovImm(r, w) => m.(regs := m.regs[r := w])
    case SaveEax(disp) => m.(memory := m.memory[Plus(m.regs[ESP], SignedByte(disp)) := m.regs[EAX]])
    case EcxFromEsp => m.(regs := m.regs[ECX := m.regs[ESP]])
    case CallReg(r) => PushWord(m, m.eip).(eip := m.regs[r])
    case JmpReg(r) => m.(eip := m.regs[r])
    case JmpMem(at) => m.(eip := Load(m.memory, at))
    case JmpRel(disp) => m.(eip := Wrap(m.eip + disp))
    case CallRel(disp) => PushWord(m, m.eip).(eip := Wrap(m.eip + disp))
    case Ret =>
      m.(regs := m.regs[ESP := Plus(m.regs[ESP], 4)], eip := Load(m.memory, m.regs[ESP]))
  }

  predicate Straight(op: Op)
  {
    !op.CallReg? && !op.JmpReg? && !op.JmpMem? && !op.JmpRel? && !op.CallRel? && !op.Ret?
  }

  /** `steps` instructions of `code`, which is loaded at `base`; none if control gets anywhere
      the code does not cover or that holds another instruction. */
  function Run(code: seq<byte>, base: word, m: Machine, steps: nat): Option<Machine>
    decreases steps
  {
    if steps == 0 then Some(m)
    else
      var at := Wrap(m.eip - base);
      if at >= |code| then None
      else match Fetch(code[at..])
        case None => None
        case Some(op) => Run(code, base, Exec(op, m.(eip := Wrap(m.eip + |Encode(op)|))), steps - 1)
  }

  /** The instructions one after another, as a list. */
  function ExecAll(ops: seq<Op>, m: Machine): Machine
  {
    if ops == [] then m
    else ExecAll(ops[1..], Exec(ops[0], m.(eip := Wrap(m.eip + |Encode(ops[0])|))))
  }

  /** Running encoded instructions, all but the last without control transfer, is executing the
      list. */
  lemma {:induction false} RunIsExecAll(before: seq<byte>, ops: seq<Op>, after: seq<byte>, base: word, m: Machine)
    requires |before + EncodeAll(ops) + after| < WORD_LIMIT && m.eip == Wrap(base + |before|)
    requires forall i | 0 <= i < |ops| - 1 :: Straight(ops[i])
    ensures Run(before + EncodeAll(ops) + after, base, m, |ops|) == Some(ExecAll(ops, m))
    decreases |ops|
  {
    hide Encode, Fetch, Wrap, Exec;
    if ops != [] {
      var code := before + EncodeAll(ops) + after;
      var tail := EncodeAll(ops[1..]) + after;
      OffsetBack(base, |before|);
      assert code[|before|..] == Encode(ops[0]) + tail;
      FetchEncode(ops[0], tail);
      var next := Exec(ops[0], m.(eip := Wrap(m.eip + |Encode(ops[0])|)));
      var done := before + Encode(ops[0]);
      assert code == done + EncodeAll(ops[1..]) + after;
      if |ops| > 1 {
        assert Straight(ops[0]);
        StraightGoesOn(ops[0], m.(eip := Wrap(m.eip + |Encode(ops[0])|)));
        WrapSum(base + |before|, |Encode(ops[0])|);
        RunIsExecAll(done, ops[1..], after, base, next);
      }
    }
  }

  lemma StraightGoesOn(op: Op, m: Machine)
    requires Straight(op)
    ensures Exec(op, m).eip == m.eip
  {
  }

  lemma OffsetBack(base: word, n: nat)
    requires n < WORD_LIMIT
    ensures Wrap(Wrap(base + n) - base) == n
  {
    var back: int := base;
    WrapSum(base + n, -back);
  }
}
