/** Instructions as an assembler knows them: prefixes, an opcode of the manuals' maps, a register or
    memory operand, and immediate bytes. The length decoder finds the length of each of them, and
    takes nothing else for an instruction. */
module Assembler {
  import opened Words
  import opened OpcodeTable
  import opened OpcodeGrid
  import opened Lde

  // ---------------------------------------------------------------- operands

  datatype Displacement = NoDisp | Disp8(b: byte) | Disp16(b0: byte, b1: byte) | Disp32(w: word)

  /** The addressing forms. In the indexed forms, index 4 stands for none. */
  datatype Operand =
    | Register(r: nat)
    | Absolute(address: word)                                          // [disp32]
    | Based(base: nat, disp: Displacement)                             // [base + disp]
    | Indexed(scale: nat, index: nat, base: nat, disp: Displacement)   // [base + index * 2^scale + disp]
    | IndexedOnly(scale: nat, index: nat, address: word)               // [index * 2^scale + disp32]
    | Absolute16(b0: byte, b1: byte)                                   // [disp16]
    | Paired(pair: nat, disp: Displacement)                            // [bx + si + disp] and the like

  /** Which of them there are. esp as a base takes the indexed form; ebp as a base, and bp in 16-bit
      addressing, take a displacement. */
  predicate Exists(o: Operand, addr16: bool)
  {
    match o
    case Register(r) => r < 8
    case Absolute(_) => !addr16
    case Based(base, disp) => !addr16 && base < 8 && base != 4 && !disp.Disp16? && (disp.NoDisp? ==> base != 5)
    case Indexed(scale, index, base, disp) =>
      !addr16 && scale < 4 && index < 8 && base < 8 && !disp.Disp16? && (disp.NoDisp? ==> base != 5)
    case IndexedOnly(scale, index, _) => !addr16 && scale < 4 && index < 8
    case Absolute16(_, _) => addr16
    case Paired(pair, disp) => addr16 && pair < 8 && !disp.Disp32? && (disp.NoDisp? ==> pair != 6)
  }

  function DispBytes(d: Displacement): (s: seq<byte>)
    ensures |s| == match d case NoDisp => 0 case Disp8(_) => 1 case Disp16(_, _) => 2 case Disp32(_) => 4
  {
    match d
    case NoDisp => []
    case Disp8(b) => [b]
    case Disp16(b0, b1) => [b0, b1]
    case Disp32(w) => Bytes4(w)
  }

  function ModOf(d: Displacement): nat
  {
    match d
    case NoDisp => 0
    case Disp8(_) => 1
    case _ => 2
  }

  function Fields(high: nat, middle: nat, low: nat): byte
    requires high < 4 && middle < 8 && low < 8
  {
    0x40 * high + 8 * middle + low
  }

  /** The ModR/M byte and what belongs to it. */
  function OperandBytes(reg: nat, o: Operand, addr16: bool): (s: seq<byte>)
    requires reg < 8 && Exists(o, addr16)
    ensures |s| > 0
  {
    match o
    case Register(r) => [Fields(3, reg, r)]
    case Absolute(address) => [Fields(0, reg, 5)] + Bytes4(address)
    case Based(base, disp) => [Fields(ModOf(disp), reg, base)] + DispBytes(disp)
    case Indexed(scale, index, base, disp) =>
      [Fields(ModOf(disp), reg, 4), Fields(scale, index, base)] + DispBytes(disp)
    case IndexedOnly(scale, index, address) => [Fields(0, reg, 4), Fields(scale, index, 5)] + Bytes4(address)
    case Absolute16(b0, b1) => [Fields(0, reg, 6), b0, b1]
    case Paired(pair, disp) => [Fields(ModOf(disp), reg, pair)] + DispBytes(disp)
  }

  /** A displacement as the word that is added, with its sign. */
  function DispValue(d: Displacement): word
  {
    match d
    case NoDisp => 0
    case Disp8(b) => if b < 0x80 then b else 0xFFFF_FF00 + b
    case Disp16(b0, b1) => b0 + 0x100 * (b1 as int)
    case Disp32(w) => w
  }

  /** The address a memory operand of 32-bit addressing names, register 4 being the stack pointer. */
  function EffectiveAddress(o: Operand, regs: seq<word>): word
    requires Exists(o, false) && !o.Register? && |regs| == 8
  {
    match o
    case Absolute(address) => address
    case Based(base, disp) => Wrap(regs[base] + DispValue(disp))
    case Indexed(scale, index, base, disp) => Wrap(regs[base] + Scaled(scale, index, regs) + DispValue(disp))
    case IndexedOnly(scale, index, address) => Wrap(Scaled(scale, index, regs) + address)
  }

  function Scaled(scale: nat, index: nat, regs: seq<word>): nat
    requires scale < 4 && index < 8 && |regs| == 8
  {
    if index == 4 then 0
    else (regs[index] as int) * match scale case 0 => 1 case 1 => 2 case 2 => 4 case _ => 8
  }

  // ---------------------------------------------------------------- instructions

  datatype Instruction = Instruction(prefixes: seq<byte>, op: nat, reg: nat, operand: Operand, imm: seq<byte>)

  /** Bytes of immediate operands, offsets and displacements behind opcode and operand. */
  function ImmBytes(kind: char, reg: nat, op16: bool, addr16: bool): nat
  {
    var z := if op16 then 2 else 4;
    match kind
    case 'b' => 1
    case 'B' => 1
    case 'w' => 2
    case 'e' => 3
    case 'z' => z
    case 'Z' => z
    case 'f' => z + 2
    case 'o' => if addr16 then 2 else 4
    case 'T' => if reg == 0 then 1 else 0
    case 'U' => if reg == 0 then z else 0
    case _ => 0
  }

  predicate WellFormed(i: Instruction)
  {
    && (forall k | 0 <= k < |i.prefixes| :: Kind(i.prefixes[k]) == 'p')
    && i.op < 0x200 && Kind(i.op) != 'p' && Kind(i.op) != 'x'
    && i.reg < 8 && Exists(i.operand, 0x67 in i.prefixes)
    && |i.imm| == ImmBytes(Kind(i.op), i.reg, 0x66 in i.prefixes, 0x67 in i.prefixes)
  }

  function OpcodeBytes(op: nat): (s: seq<byte>)
    requires op < 0x200
    ensures 1 <= |s| <= 2
  {
    if op < 0x100 then [op] else [0x0F, op - 0x100]
  }

  /** The instruction without its prefixes. */
  function Body(i: Instruction): (s: seq<byte>)
    requires WellFormed(i)
    ensures |s| > 0
  {
    OpcodeBytes(i.op)
    + (if HasModRmByte(Kind(i.op)) then OperandBytes(i.reg, i.operand, 0x67 in i.prefixes) else [])
    + i.imm
  }

  function Assembled(i: Instruction): (s: seq<byte>)
    requires WellFormed(i)
  {
    i.prefixes + Body(i)
  }

  // ---------------------------------------------------------------- the decoder finds their length

  /** The decoder's displacement tables, on every operand. */
  lemma OperandLength(reg: nat, o: Operand, addr16: bool, tail: seq<byte>)
    requires reg < 8 && Exists(o, addr16)
    ensures var s := OperandBytes(reg, o, addr16);
            var code := s + tail;
            && Reg(code[0]) == reg
            && (HasSib(code[0], addr16) ==> |s| >= 2)
            && |s| == if HasSib(code[0], addr16) then 2 + DispSize(code[0], code[1], addr16)
                      else 1 + DispSize(code[0], 0, addr16)
  {
    var s := OperandBytes(reg, o, addr16);
    var code := s + tail;
    assert code[0] == s[0] && (|s| >= 2 ==> code[1] == s[1]);
    match o {
      case Register(r) => FieldsRead(3, reg, r);
      case Absolute(_) => FieldsRead(0, reg, 5);
      case Based(base, disp) => FieldsRead(ModOf(disp), reg, base);
      case Indexed(scale, index, base, disp) => FieldsRead(ModOf(disp), reg, 4); FieldsRead(scale, index, base);
      case IndexedOnly(scale, index, _) => FieldsRead(0, reg, 4); FieldsRead(scale, index, 5);
      case Absolute16(_, _) => FieldsRead(0, reg, 6);
      case Paired(pair, disp) => FieldsRead(ModOf(disp), reg, pair);
    }
  }

  lemma FieldsRead(high: nat, middle: nat, low: nat)
    requires high < 4 && middle < 8 && low < 8
    ensures var b := Fields(high, middle, low);
            Mod(b) == high && Reg(b) == middle && Rm(b) == low && b % 8 == low
  {
  }

  /** The sizes of immediates agree: the decoder's, by its flag classes, with the grid's. */
  lemma ImmediateLength(op: nat, reg: nat, op16: bool, addr16: bool)
    requires op < 0x200
    ensures HasModRm(op) == HasModRmByte(Kind(op))
    ensures ImmSize(op, reg, op16, addr16)
         == ImmBytes(Kind(op), if HasModRmByte(Kind(op)) then reg else 1, op16, addr16)
  {
    hide HasModRm, HasImm8, HasImm16, HasImmZ, IsPrefix, Kind;
    GridIsOpcodeMap(op);
  }

  /** An instruction without prefixes: its opcode and the rest. */
  function AfterOpcode(i: Instruction): seq<byte>
    requires WellFormed(i)
  {
    if HasModRmByte(Kind(i.op)) then OperandBytes(i.reg, i.operand, 0x67 in i.prefixes) + i.imm else i.imm
  }

  lemma BodyParts(i: Instruction)
    requires WellFormed(i)
    ensures Body(i) == OpcodeBytes(i.op) + AfterOpcode(i)
  {
    hide Kind, ImmBytes, Exists, OperandBytes, OpcodeBytes;
    var operand := if HasModRmByte(Kind(i.op)) then OperandBytes(i.reg, i.operand, 0x67 in i.prefixes) else [];
    assert Body(i) == OpcodeBytes(i.op) + operand + i.imm;
  }

  /** The decoder behind the opcode. */
  lemma SizeByOpcode(op: nat, rest: seq<byte>, op16: bool, addr16: bool)
    requires op < 0x200 && op != 0x0F
    ensures var n := |OpcodeBytes(op)|;
            BodySize(OpcodeBytes(op) + rest, op16, addr16)
            == if !HasModRm(op) then Some(n + ImmSize(op, 1, op16, addr16))
               else if rest == [] then None
               else if !HasSib(rest[0], addr16) then
                 Some(n + 1 + DispSize(rest[0], 0, addr16) + ImmSize(op, Reg(rest[0]), op16, addr16))
               else if |rest| == 1 then None
               else Some(n + 2 + DispSize(rest[0], rest[1], addr16) + ImmSize(op, Reg(rest[0]), op16, addr16))
  {
    hide HasModRm, ImmSize, HasSib, DispSize;
    OpcodeRead(op, rest);
  }

  lemma BodyLength(i: Instruction, tail: seq<byte>)
    requires WellFormed(i)
    ensures BodySize(Body(i) + tail, 0x66 in i.prefixes, 0x67 in i.prefixes) == Some(|Body(i)|)
  {
    hide HasModRm, Kind, ImmSize, ImmBytes, HasSib, DispSize, OperandBytes, Exists, Body, OpcodeBytes, BodySize;
    var op16, addr16 := 0x66 in i.prefixes, 0x67 in i.prefixes;
    GridIsOpcodeMap(i.op);
    BodyParts(i);
    assert Body(i) + tail == OpcodeBytes(i.op) + (AfterOpcode(i) + tail);
    SizeByOpcode(i.op, AfterOpcode(i) + tail, op16, addr16);
    ImmediateLength(i.op, i.reg, op16, addr16);
    ImmediateLength(i.op, 1, op16, addr16);
    if HasModRmByte(Kind(i.op)) {
      assert AfterOpcode(i) + tail == OperandBytes(i.reg, i.operand, addr16) + (i.imm + tail);
      OperandLength(i.reg, i.operand, addr16, i.imm + tail);
    } else {
      PlainImmediate(Kind(i.op), i.reg, op16, addr16);
    }
  }

  lemma PlainImmediate(kind: char, reg: nat, op16: bool, addr16: bool)
    ensures !HasModRmByte(kind) ==> ImmBytes(kind, reg, op16, addr16) == ImmBytes(kind, 1, op16, addr16)
  {
  }

  lemma OpcodeRead(op: nat, rest: seq<byte>)
    requires op < 0x200 && op != 0x0F
    ensures var code := OpcodeBytes(op) + rest;
            && |code| > 0 && (code[0] == 0x0F <==> op >= 0x100)
            && (op >= 0x100 ==> |code| >= 2 && 0x100 + (code[1] as int) == op)
            && (op < 0x100 ==> code[0] == op)
            && code[|OpcodeBytes(op)|..] == rest
  {
  }

  /** Whatever follows it, an assembled instruction is decoded with exactly its length, its opcode
      right behind its prefixes. */
  lemma AssembledIsDecoded(i: Instruction, tail: seq<byte>)
    requires WellFormed(i)
    ensures Decode(Assembled(i) + tail) == Some(Decoded(|Assembled(i)|, |i.prefixes|))
  {
    hide BodySize, Kind, IsPrefix, Body;
    var code := Assembled(i) + tail;
    var n := |i.prefixes|;
    assert code[n..] == Body(i) + tail && code[..n] == i.prefixes;
    BodyLength(i, tail);
    BodyIsNoPrefix(i);
    forall k | 0 <= k < n ensures IsPrefix(code[k]) {
      GridIsOpcodeMap(i.prefixes[k]);
    }
    PrefixesEnd(code, 0, n);
  }

  lemma BodyIsNoPrefix(i: Instruction)
    requires WellFormed(i)
    ensures !IsPrefix(Body(i)[0])
  {
    hide Kind;
    GridIsOpcodeMap(i.op);
  }

  lemma {:induction false} PrefixesEnd(code: seq<byte>, at: nat, n: nat)
    requires at <= n < |code| && !IsPrefix(code[n]) && forall k | at <= k < n :: IsPrefix(code[k])
    ensures PrefixEnd(code, at) == n
    decreases n - at
  {
    hide IsPrefix;
    if at < n {
      PrefixesEnd(code, at + 1, n);
    }
  }

  // ---------------------------------------------------------------- and nothing else

  /** The operand a ModR/M byte begins. */
  function OperandAt(s: seq<byte>, addr16: bool): Operand
    requires |s| > 0
    requires HasSib(s[0], addr16) ==> |s| >= 2
    requires |s| == if HasSib(s[0], addr16) then 2 + DispSize(s[0], s[1], addr16) else 1 + DispSize(s[0], 0, addr16)
  {
    var mod, rm := Mod(s[0]), Rm(s[0]);
    if mod == 3 then Register(rm)
    else if addr16 then
      if mod == 0 && rm == 6 then Absolute16(s[1], s[2])
      else Paired(rm, if mod == 0 then NoDisp else if mod == 1 then Disp8(s[1]) else Disp16(s[1], s[2]))
    else if rm == 4 then
      var scale, index, base := Mod(s[1]), Reg(s[1]), Rm(s[1]);
      if mod == 0 && base == 5 then IndexedOnly(scale, index, Word4(s[2..]))
      else
        Indexed(scale, index, base,
                if mod == 0 then NoDisp else if mod == 1 then Disp8(s[2]) else Disp32(Word4(s[2..])))
    else if mod == 0 && rm == 5 then Absolute(Word4(s[1..]))
    else Based(rm, if mod == 0 then NoDisp else if mod == 1 then Disp8(s[1]) else Disp32(Word4(s[1..])))
  }

  /** Every ModR/M byte with what the decoder counts to it is some operand. */
  lemma OperandIsAssembled(s: seq<byte>, addr16: bool)
    requires |s| > 0
    requires HasSib(s[0], addr16) ==> |s| >= 2
    requires |s| == if HasSib(s[0], addr16) then 2 + DispSize(s[0], s[1], addr16) else 1 + DispSize(s[0], 0, addr16)
    ensures Exists(OperandAt(s, addr16), addr16) && OperandBytes(Reg(s[0]), OperandAt(s, addr16), addr16) == s
  {
    hide Word4, Bytes4;
    FieldsBack(s[0]);
    if HasSib(s[0], addr16) {
      FieldsBack(s[1]);
      if |s| == 6 { WordBack(s[2..]); }
    } else if |s| == 5 {
      WordBack(s[1..]);
    }
  }

  lemma FieldsBack(b: byte)
    ensures Mod(b) < 4 && Reg(b) < 8 && Rm(b) < 8 && Fields(Mod(b), Reg(b), Rm(b)) == b
  {
  }

  lemma WordBack(s: seq<byte>)
    requires |s| == 4
    ensures Bytes4(Word4(s)) == s
  {
    var w: int := Word4(s);
    var b0: int, b1: int, b2: int, b3: int := s[0], s[1], s[2], s[3];
    assert w == b0 + 0x100 * (b1 + 0x100 * (b2 + 0x100 * b3));
    assert w / 0x100 == b1 + 0x100 * (b2 + 0x100 * b3);
    assert w / 0x1_0000 == b2 + 0x100 * b3;
    assert w / 0x100_0000 == b3;
  }

  /** Whatever the decoder takes for an instruction is an assembled one. */
  lemma DecodedIsAssembled(ins: seq<byte>)
    requires Whole(ins)
    ensures exists i :: WellFormed(i) && Assembled(i) == ins
  {
    hide BodySize, IsPrefix, Kind, ImmBytes, Exists, OperandBytes;
    PrefixesThenBody(ins);
    var n := PrefixEnd(ins, 0);
    var prefixes, body := ins[..n], ins[n..];
    forall k | 0 <= k < n ensures Kind(prefixes[k]) == 'p' {
      GridIsOpcodeMap(ins[k]);
    }
    var i := BodyIsAssembled(prefixes, body);
    assert ins == prefixes + body;
  }

  lemma BodyIsAssembled(prefixes: seq<byte>, body: seq<byte>) returns (i: Instruction)
    requires forall k | 0 <= k < |prefixes| :: Kind(prefixes[k]) == 'p'
    requires body != [] && !IsPrefix(body[0])
    requires BodySize(body, 0x66 in prefixes, 0x67 in prefixes) == Some(|body|)
    ensures WellFormed(i) && i.prefixes == prefixes && Body(i) == body
  {
    hide HasModRm, Kind, ImmSize, ImmBytes, HasSib, DispSize, OperandBytes, Exists, OperandAt, IsPrefix, WellFormed;
    var op16, addr16 := 0x66 in prefixes, 0x67 in prefixes;
    var op: nat := if body[0] == 0x0F then 0x100 + (body[1] as int) else body[0];
    var opcode, rest := OpcodeBytes(op), body[|OpcodeBytes(op)|..];
    assert body == opcode + rest;
    GridIsOpcodeMap(op);
    OpcodeKind(op, body[0]);
    ImmediateLength(op, 1, op16, addr16);
    if HasModRmByte(Kind(op)) {
      var reg := Reg(rest[0]);
      ImmediateLength(op, reg, op16, addr16);
      var size := 1 + if HasSib(rest[0], addr16) then 1 + DispSize(rest[0], rest[1], addr16)
                      else DispSize(rest[0], 0, addr16);
      i := WithOperand(prefixes, op, rest, size);
    } else {
      RegisterExists(addr16);
      i := Instruction(prefixes, op, 1, Register(0), rest);
      IsWellFormed(i);
      BodyParts(i);
    }
  }

  lemma OpcodeKind(op: nat, first: byte)
    requires op < 0x200 && !IsPrefix(first) && (if first == 0x0F then op >= 0x100 else op == first)
    ensures Kind(op) != 'p' && Kind(op) != 'x'
  {
    hide Kind;
    GridIsOpcodeMap(op);
  }

  lemma IsWellFormed(i: Instruction)
    requires forall k | 0 <= k < |i.prefixes| :: Kind(i.prefixes[k]) == 'p'
    requires i.op < 0x200 && Kind(i.op) != 'p' && Kind(i.op) != 'x' && i.reg < 8
    requires Exists(i.operand, 0x67 in i.prefixes)
    requires |i.imm| == ImmBytes(Kind(i.op), i.reg, 0x66 in i.prefixes, 0x67 in i.prefixes)
    ensures WellFormed(i)
  {
  }

  lemma WithOperand(prefixes: seq<byte>, op: nat, rest: seq<byte>, size: nat) returns (i: Instruction)
    requires forall k | 0 <= k < |prefixes| :: Kind(prefixes[k]) == 'p'
    requires op < 0x200 && HasModRmByte(Kind(op)) && |rest| > 0
    requires HasSib(rest[0], 0x67 in prefixes) ==> |rest| >= 2
    requires size == 1 + if HasSib(rest[0], 0x67 in prefixes) then 1 + DispSize(rest[0], rest[1], 0x67 in prefixes)
                         else DispSize(rest[0], 0, 0x67 in prefixes)
    requires |rest| == size + ImmBytes(Kind(op), Reg(rest[0]), 0x66 in prefixes, 0x67 in prefixes)
    ensures WellFormed(i) && i.prefixes == prefixes && Body(i) == OpcodeBytes(op) + rest
  {
    hide Kind, ImmBytes, HasSib, DispSize, OperandBytes, Exists, OperandAt, WellFormed, Body, OpcodeBytes, AfterOpcode;
    var addr16 := 0x67 in prefixes;
    OperandIsAssembled(rest[..size], addr16);
    FieldsBack(rest[0]);
    i := Instruction(prefixes, op, Reg(rest[0]), OperandAt(rest[..size], addr16), rest[size..]);
    IsWellFormed(i);
    BodyParts(i);
    AfterOpcodeIs(i, rest, size);
  }

  lemma AfterOpcodeIs(i: Instruction, rest: seq<byte>, size: nat)
    requires WellFormed(i) && HasModRmByte(Kind(i.op)) && size <= |rest|
    requires OperandBytes(i.reg, i.operand, 0x67 in i.prefixes) == rest[..size] && i.imm == rest[size..]
    ensures AfterOpcode(i) == rest
  {
    hide Kind, OperandBytes, WellFormed;
  }

  lemma RegisterExists(addr16: bool)
    ensures Exists(Register(0), addr16)
  {
  }
}
