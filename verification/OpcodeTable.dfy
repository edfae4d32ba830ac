/** The packed opcode table of the 32-bit length decoder, and the opcode map it packs,
    written out as ranges of opcodes. */
module OpcodeTable {
  import opened Words

  // ---------------------------------------------------------------- the packed table

  /** Two levels in one array: the first 128 entries give, for each group of four opcodes,
      where in the rest the group's flags start. One line here is one row of the source. */
  function PackedTable(i: nat): byte
    requires i < 236
  {
    var c := i % 8;
    match i / 8
    case 0 => Pick(c, 0x80, 0x84, 0x80, 0x84, 0x80, 0x84, 0x80, 0x84)
    case 1 => Pick(c, 0x80, 0x88, 0x80, 0x88, 0x80, 0x88, 0x80, 0x88)
    case 2 => Pick(c, 0x8c, 0x8b, 0x8b, 0x8b, 0x8b, 0x8b, 0x8b, 0x8b)
    case 3 => Pick(c, 0x90, 0x94, 0x98, 0x8b, 0x9c, 0x9c, 0x9c, 0x9c)
    case 4 => Pick(c, 0xa0, 0x80, 0x80, 0x80, 0x8b, 0x8b, 0xa4, 0x8b)
    case 5 => Pick(c, 0xa8, 0x8b, 0x84, 0x8b, 0xac, 0xac, 0xa8, 0xa8)
    case 6 => Pick(c, 0xb0, 0xb4, 0xb8, 0xbc, 0x80, 0xc0, 0x80, 0x80)
    case 7 => Pick(c, 0x9c, 0xac, 0xc4, 0x8b, 0xc8, 0x90, 0x8b, 0x90)
    case 8 => Pick(c, 0x80, 0x8b, 0x8b, 0xcc, 0x80, 0x80, 0xd0, 0x8b)
    case 9 => Pick(c, 0x80, 0xd4, 0x80, 0x80, 0x8b, 0x8b, 0x8b, 0x8b)
    case 10 => Pick(c, 0x80, 0x80, 0x80, 0x80, 0x80, 0x80, 0x80, 0x80)
    case 11 => Pick(c, 0x80, 0x80, 0x80, 0x80, 0xd8, 0xdc, 0x8b, 0x80)
    case 12 => Pick(c, 0xe0, 0xe0, 0xe0, 0xe0, 0x80, 0x80, 0x80, 0x80)
    case 13 => Pick(c, 0x8f, 0xcf, 0x8f, 0xdb, 0x80, 0x80, 0xe4, 0x80)
    case 14 => Pick(c, 0xe8, 0xd9, 0x8b, 0x8b, 0x80, 0x80, 0x80, 0x80)
    case 15 => Pick(c, 0x80, 0x80, 0x80, 0x80, 0x80, 0x80, 0x80, 0xdc)
    case 16 => Pick(c, 0x08, 0x08, 0x08, 0x08, 0x01, 0x10, 0x00, 0x00)
    case 17 => Pick(c, 0x01, 0x10, 0x20, 0x00, 0x00, 0x00, 0x00, 0x00)
    case 18 => Pick(c, 0x00, 0x00, 0x08, 0x08, 0x20, 0x20, 0x20, 0x20)
    case 19 => Pick(c, 0x10, 0x18, 0x01, 0x09, 0x81, 0x81, 0x81, 0x81)
    case 20 => Pick(c, 0x09, 0x18, 0x09, 0x09, 0x00, 0x00, 0x12, 0x00)
    case 21 => Pick(c, 0x10, 0x10, 0x10, 0x10, 0x01, 0x01, 0x01, 0x01)
    case 22 => Pick(c, 0x09, 0x09, 0x02, 0x00, 0x08, 0x08, 0x09, 0x18)
    case 23 => Pick(c, 0x03, 0x00, 0x02, 0x00, 0x00, 0x01, 0x00, 0x00)
    case 24 => Pick(c, 0x01, 0x01, 0x00, 0x00, 0x50, 0x50, 0x12, 0x81)
    case 25 => Pick(c, 0x20, 0x00, 0x20, 0x20, 0x00, 0x08, 0x00, 0x09)
    case 26 => Pick(c, 0x08, 0x00, 0x00, 0x00, 0x08, 0x00, 0x08, 0x00)
    case 27 => Pick(c, 0x09, 0x09, 0x09, 0x09, 0x08, 0x08, 0x08, 0x00)
    case 28 => Pick(c, 0x50, 0x50, 0x50, 0x50, 0x00, 0x00, 0x09, 0x08)
    case _ => Pick(c, 0x08, 0x08, 0x09, 0x08, 0x00, 0x00, 0x00, 0x00)
  }

  /** Entry `c` of a row of eight. */
  function Pick(c: nat, b0: byte, b1: byte, b2: byte, b3: byte, b4: byte, b5: byte, b6: byte, b7: byte): byte
    requires c < 8
  {
    if c < 4 then if c < 2 then if c == 0 then b0 else b1 else if c == 2 then b2 else b3
    else if c < 6 then if c == 4 then b4 else b5 else if c == 6 then b6 else b7
  }

  const DATA_I8 := 0x01
  const DATA_I16 := 0x02
  const MODRM := 0x08
  const DATA_PRE66_67 := 0x10
  const PREFIX := 0x20
  const REL32 := 0x40
  const REL8 := 0x80

  /** Every group of the first level starts inside the second level, with room for all four flags. */
  lemma FirstLevelInBounds(group: nat)
    requires group < 128
    ensures 128 <= PackedTable(group) && PackedTable(group) + 3 < 236
  {
  }

  /** GetOpCodeFlags32. Opcodes 0x100 and up are the two-byte opcodes 0F xx. */
  function OpCodeFlags(opcode: nat): byte
    requires opcode < 0x200
  {
    FirstLevelInBounds(opcode / 4);
    PackedTable(PackedTable(opcode / 4) + opcode % 4)
  }

  predicate FlagOn(flags: nat, flag: nat)
    requires flag > 0
  {
    flags / flag % 2 == 1
  }

  function SetFlag(flags: nat, flag: nat): nat
    requires flag > 0
  {
    if FlagOn(flags, flag) then flags else flags + flag
  }

  // ---------------------------------------------------------------- the opcode map, declaratively

  predicate IsPrefix(op: nat)
  {
    || op == 0x26 || op == 0x2E || op == 0x36 || op == 0x3E
    || 0x64 <= op <= 0x67 || op == 0xF0 || op == 0xF2 || op == 0xF3
  }

  /** Opcodes followed by a ModR/M byte. */
  predicate HasModRm(op: nat)
  {
    if op < 0x100 then
      || (op < 0x40 && op % 8 < 4) || op == 0x62 || op == 0x63 || op == 0x69 || op == 0x6B
      || 0x80 <= op <= 0x8F || op == 0xC0 || op == 0xC1 || 0xC4 <= op <= 0xC7
      || 0xD0 <= op <= 0xD3 || 0xD8 <= op <= 0xDF || op == 0xF6 || op == 0xF7 || op >= 0xFE
    else
      var x := op - 0x100;
      || x <= 0x03 || x == 0x0D || 0x0F <= x <= 0x18 || 0x20 <= x <= 0x24 || x == 0x26
      || 0x28 <= x <= 0x2F || 0x40 <= x <= 0x76 || 0x7C <= x <= 0x7F || 0x90 <= x <= 0x9F
      || 0xA3 <= x <= 0xA5 || 0xAB <= x <= 0xB7 || 0xBA <= x <= 0xC7 || 0xD0 <= x <= 0xFE
  }

  /** Opcodes carrying a one-byte immediate or displacement whatever their ModR/M byte says. */
  predicate HasImm8(op: nat)
  {
    if op < 0x100 then
      || (op < 0x40 && op % 8 == 4) || op == 0x6A || op == 0x6B || 0x70 <= op <= 0x7F
      || op == 0x80 || op == 0x82 || op == 0x83 || op == 0xA8 || 0xB0 <= op <= 0xB7
      || op == 0xC0 || op == 0xC1 || op == 0xC6 || op == 0xC8 || op == 0xCD || op == 0xD4
      || op == 0xD5 || 0xE0 <= op <= 0xE7 || op == 0xEB
    else
      var x := op - 0x100;
      || x == 0x0F || 0x70 <= x <= 0x73 || x == 0xA4 || x == 0xAC || x == 0xBA || x == 0xC2
      || 0xC4 <= x <= 0xC6
  }

  /** RET n, RETF n, ENTER and the far pointers carry a 16-bit word. */
  predicate HasImm16(op: nat)
  {
    op == 0x9A || op == 0xC2 || op == 0xC8 || op == 0xCA || op == 0xEA
  }

  /** Opcodes carrying an operand of the current operand size (address size for A0-A3). */
  predicate HasImmZ(op: nat)
  {
    || (op < 0x40 && op % 8 == 5) || op == 0x68 || op == 0x69 || op == 0x81 || op == 0x9A
    || 0xA0 <= op <= 0xA3 || op == 0xA9 || 0xB8 <= op <= 0xBF || op == 0xC7 || op == 0xE8
    || op == 0xE9 || op == 0xEA || 0x180 <= op <= 0x18F
  }

  /** Operands that are displacements from the next instruction. */
  predicate IsRel8(op: nat)
  {
    0x70 <= op <= 0x7F || 0xE0 <= op <= 0xE3 || op == 0xEB
  }

  predicate IsRel32(op: nat)
  {
    op == 0xE8 || op == 0xE9 || 0x180 <= op <= 0x18F
  }

  function Weight(on: bool, flag: nat): nat
  {
    if on then flag else 0
  }

  /** The flag byte the declarative map calls for. */
  function FlagsOf(op: nat): nat
  {
    Weight(HasImm8(op), DATA_I8) + Weight(HasImm16(op), DATA_I16) + Weight(HasModRm(op), MODRM)
    + Weight(HasImmZ(op), DATA_PRE66_67) + Weight(IsPrefix(op), PREFIX)
    + Weight(IsRel32(op), REL32) + Weight(IsRel8(op), REL8)
  }

  /** The packed table says exactly what the declarative map says, for all 512 opcodes. */
  lemma TableIsOpcodeMap(op: nat)
    requires op < 0x200
    ensures OpCodeFlags(op) == FlagsOf(op)
  {
    if op < 0x40 {
      if op < 0x08 { Map00(op); } else if op < 0x10 { Map08(op); } else if op < 0x20 { Map10(op); }
      else if op < 0x30 { Map20(op); } else { Map30(op); }
    } else if op < 0xC0 {
      if op < 0x60 { Map40(op); } else if op < 0x80 { Map60(op); } else if op < 0xA0 { Map80(op); } else { MapA0(op); }
    } else if op < 0x100 {
      if op < 0xD0 { MapC0(op); } else if op < 0xE0 { MapD0(op); } else if op < 0xF0 { MapE0(op); } else { MapF0(op); }
    } else {
      if op < 0x140 { Map0F00(op); } else if op < 0x180 { Map0F40(op); }
      else if op < 0x1C0 { Map0F80(op); } else { Map0FC0(op); }
    }
  }

  lemma Map00(op: nat)
    requires 0x00 <= op < 0x08
    ensures OpCodeFlags(op) == FlagsOf(op)
  {
  }

  lemma Map08(op: nat)
    requires 0x08 <= op < 0x10
    ensures OpCodeFlags(op) == FlagsOf(op)
  {
  }

  lemma Map10(op: nat)
    requires 0x10 <= op < 0x20
    ensures OpCodeFlags(op) == FlagsOf(op)
  {
  }

  lemma Map20(op: nat)
    requires 0x20 <= op < 0x30
    ensures OpCodeFlags(op) == FlagsOf(op)
  {
  }

  lemma Map30(op: nat)
    requires 0x30 <= op < 0x40
    ensures OpCodeFlags(op) == FlagsOf(op)
  {
  }

  lemma Map40(op: nat)
    requires 0x40 <= op < 0x60
    ensures OpCodeFlags(op) == FlagsOf(op)
  {
  }

  lemma Map60(op: nat)
    requires 0x60 <= op < 0x80
    ensures OpCodeFlags(op) == FlagsOf(op)
  {
  }

  lemma Map80(op: nat)
    requires 0x80 <= op < 0xA0
    ensures OpCodeFlags(op) == FlagsOf(op)
  {
  }

  lemma MapA0(op: nat)
    requires 0xA0 <= op < 0xC0
    ensures OpCodeFlags(op) == FlagsOf(op)
  {
  }

  lemma MapC0(op: nat)
    requires 0xC0 <= op < 0xD0
    ensures OpCodeFlags(op) == FlagsOf(op)
  {
  }

  lemma MapD0(op: nat)
    requires 0xD0 <= op < 0xE0
    ensures OpCodeFlags(op) == FlagsOf(op)
  {
  }

  lemma MapE0(op: nat)
    requires 0xE0 <= op < 0xF0
    ensures OpCodeFlags(op) == FlagsOf(op)
  {
  }

  lemma MapF0(op: nat)
    requires 0xF0 <= op < 0x100
    ensures OpCodeFlags(op) == FlagsOf(op)
  {
  }

  lemma Map0F00(op: nat)
    requires 0x100 <= op < 0x140
    ensures OpCodeFlags(op) == FlagsOf(op)
  {
  }

  lemma Map0F40(op: nat)
    requires 0x140 <= op < 0x180
    ensures OpCodeFlags(op) == FlagsOf(op)
  {
  }

  lemma Map0F80(op: nat)
    requires 0x180 <= op < 0x1C0
    ensures OpCodeFlags(op) == FlagsOf(op)
  {
  }

  lemma Map0FC0(op: nat)
    requires 0x1C0 <= op < 0x200
    ensures OpCodeFlags(op) == FlagsOf(op)
  {
  }

  /** The flag bits read back: each one is set for exactly the opcodes of its class. */
  lemma FlagBits(op: nat)
    requires op < 0x200
    ensures FlagOn(FlagsOf(op), PREFIX) == IsPrefix(op)
    ensures FlagOn(FlagsOf(op), MODRM) == HasModRm(op)
    ensures FlagOn(FlagsOf(op), DATA_PRE66_67) == HasImmZ(op)
    ensures FlagOn(FlagsOf(op), DATA_I8) == HasImm8(op)
    ensures FlagsOf(op) % 8 == Weight(HasImm8(op), 1) + Weight(HasImm16(op), 2)
  {
    WeightBits(HasImm8(op), HasImm16(op), HasModRm(op), HasImmZ(op), IsPrefix(op), IsRel32(op), IsRel8(op));
  }

  lemma WeightBits(i8: bool, i16: bool, m: bool, z: bool, p: bool, r32: bool, r8: bool)
    ensures var flags := Weight(i8, DATA_I8) + Weight(i16, DATA_I16) + Weight(m, MODRM)
                         + Weight(z, DATA_PRE66_67) + Weight(p, PREFIX) + Weight(r32, REL32) + Weight(r8, REL8);
            && FlagOn(flags, PREFIX) == p && FlagOn(flags, MODRM) == m && FlagOn(flags, DATA_PRE66_67) == z
            && FlagOn(flags, DATA_I8) == i8 && flags % 8 == Weight(i8, 1) + Weight(i16, 2)
  {
  }

  /** GetOpCodeFlags32 as the decoder calls it. */
  method GetOpCodeFlags32(opcode: nat) returns (flags: nat)
    requires opcode < 0x200
    ensures flags == FlagsOf(opcode)
  {
    TableIsOpcodeMap(opcode);
    flags := OpCodeFlags(opcode);
  }
}
