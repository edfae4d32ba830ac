/** The opcode maps by rows, in the notation of the processor manuals, and the flags of the length
    decoder compared with them row by row. The opcodes the decoder's table does not know, the escapes
    to the three-byte maps among them, have nothing behind them here either. */
module OpcodeGrid {
  import opened Words
  import opened OpcodeTable

  // What follows an opcode:
  //   .  nothing               M  ModR/M                      p  (a prefix)
  //   b  byte                  B  ModR/M, byte                x  (escape to the two-byte map)
  //   w  16-bit word           Z  ModR/M, operand-size word   o  address-size offset
  //   z  operand-size word     e  16-bit word, byte           f  operand-size word, 16-bit word
  //   T  ModR/M, and a byte if its reg field is 0
  //   U  ModR/M, and an operand-size word if its reg field is 0

  /** The one-byte map in rows of eight, and behind it the two-byte map 0F xx. */
  function Kind(op: nat): char
    requires op < 0x200
  {
    var c := op % 8;
    match op / 8
    case 0 => Column(c, 'M', 'M', 'M', 'M', 'b', 'z', '.', '.')
    case 1 => Column(c, 'M', 'M', 'M', 'M', 'b', 'z', '.', 'x')
    case 2 => Column(c, 'M', 'M', 'M', 'M', 'b', 'z', '.', '.')
    case 3 => Column(c, 'M', 'M', 'M', 'M', 'b', 'z', '.', '.')
    case 4 => Column(c, 'M', 'M', 'M', 'M', 'b', 'z', 'p', '.')
    case 5 => Column(c, 'M', 'M', 'M', 'M', 'b', 'z', 'p', '.')
    case 6 => Column(c, 'M', 'M', 'M', 'M', 'b', 'z', 'p', '.')
    case 7 => Column(c, 'M', 'M', 'M', 'M', 'b', 'z', 'p', '.')
    case 8 => Column(c, '.', '.', '.', '.', '.', '.', '.', '.')
    case 9 => Column(c, '.', '.', '.', '.', '.', '.', '.', '.')
    case 10 => Column(c, '.', '.', '.', '.', '.', '.', '.', '.')
    case 11 => Column(c, '.', '.', '.', '.', '.', '.', '.', '.')
    case 12 => Column(c, '.', '.', 'M', 'M', 'p', 'p', 'p', 'p')
    case 13 => Column(c, 'z', 'Z', 'b', 'B', '.', '.', '.', '.')
    case 14 => Column(c, 'b', 'b', 'b', 'b', 'b', 'b', 'b', 'b')
    case 15 => Column(c, 'b', 'b', 'b', 'b', 'b', 'b', 'b', 'b')
    case 16 => Column(c, 'B', 'Z', 'B', 'B', 'M', 'M', 'M', 'M')
    case 17 => Column(c, 'M', 'M', 'M', 'M', 'M', 'M', 'M', 'M')
    case 18 => Column(c, '.', '.', '.', '.', '.', '.', '.', '.')
    case 19 => Column(c, '.', '.', 'f', '.', '.', '.', '.', '.')
    case 20 => Column(c, 'o', 'o', 'o', 'o', '.', '.', '.', '.')
    case 21 => Column(c, 'b', 'z', '.', '.', '.', '.', '.', '.')
    case 22 => Column(c, 'b', 'b', 'b', 'b', 'b', 'b', 'b', 'b')
    case 23 => Column(c, 'z', 'z', 'z', 'z', 'z', 'z', 'z', 'z')
    case 24 => Column(c, 'B', 'B', 'w', '.', 'M', 'M', 'B', 'Z')
    case 25 => Column(c, 'e', '.', 'w', '.', '.', 'b', '.', '.')
    case 26 => Column(c, 'M', 'M', 'M', 'M', 'b', 'b', '.', '.')
    case 27 => Column(c, 'M', 'M', 'M', 'M', 'M', 'M', 'M', 'M')
    case 28 => Column(c, 'b', 'b', 'b', 'b', 'b', 'b', 'b', 'b')
    case 29 => Column(c, 'z', 'z', 'f', 'b', '.', '.', '.', '.')
    case 30 => Column(c, 'p', '.', 'p', 'p', '.', '.', 'T', 'U')
    case 31 => Column(c, '.', '.', '.', '.', '.', '.', 'M', 'M')
    case 32 => Column(c, 'M', 'M', 'M', 'M', '.', '.', '.', '.')
    case 33 => Column(c, '.', '.', '.', '.', '.', 'M', '.', 'B')
    case 34 => Column(c, 'M', 'M', 'M', 'M', 'M', 'M', 'M', 'M')
    case 35 => Column(c, 'M', '.', '.', '.', '.', '.', '.', '.')
    case 36 => Column(c, 'M', 'M', 'M', 'M', 'M', '.', 'M', '.')
    case 37 => Column(c, 'M', 'M', 'M', 'M', 'M', 'M', 'M', 'M')
    case 38 => Column(c, '.', '.', '.', '.', '.', '.', '.', '.')
    case 39 => Column(c, '.', '.', '.', '.', '.', '.', '.', '.')
    case 40 => Column(c, 'M', 'M', 'M', 'M', 'M', 'M', 'M', 'M')
    case 41 => Column(c, 'M', 'M', 'M', 'M', 'M', 'M', 'M', 'M')
    case 42 => Column(c, 'M', 'M', 'M', 'M', 'M', 'M', 'M', 'M')
    case 43 => Column(c, 'M', 'M', 'M', 'M', 'M', 'M', 'M', 'M')
    case 44 => Column(c, 'M', 'M', 'M', 'M', 'M', 'M', 'M', 'M')
    case 45 => Column(c, 'M', 'M', 'M', 'M', 'M', 'M', 'M', 'M')
    case 46 => Column(c, 'B', 'B', 'B', 'B', 'M', 'M', 'M', '.')
    case 47 => Column(c, '.', '.', '.', '.', 'M', 'M', 'M', 'M')
    case 48 => Column(c, 'z', 'z', 'z', 'z', 'z', 'z', 'z', 'z')
    case 49 => Column(c, 'z', 'z', 'z', 'z', 'z', 'z', 'z', 'z')
    case 50 => Column(c, 'M', 'M', 'M', 'M', 'M', 'M', 'M', 'M')
    case 51 => Column(c, 'M', 'M', 'M', 'M', 'M', 'M', 'M', 'M')
    case 52 => Column(c, '.', '.', '.', 'M', 'B', 'M', '.', '.')
    case 53 => Column(c, '.', '.', '.', 'M', 'B', 'M', 'M', 'M')
    case 54 => Column(c, 'M', 'M', 'M', 'M', 'M', 'M', 'M', 'M')
    case 55 => Column(c, '.', '.', 'B', 'M', 'M', 'M', 'M', 'M')
    case 56 => Column(c, 'M', 'M', 'B', 'M', 'B', 'B', 'B', 'M')
    case 57 => Column(c, '.', '.', '.', '.', '.', '.', '.', '.')
    case 58 => Column(c, 'M', 'M', 'M', 'M', 'M', 'M', 'M', 'M')
    case 59 => Column(c, 'M', 'M', 'M', 'M', 'M', 'M', 'M', 'M')
    case 60 => Column(c, 'M', 'M', 'M', 'M', 'M', 'M', 'M', 'M')
    case 61 => Column(c, 'M', 'M', 'M', 'M', 'M', 'M', 'M', 'M')
    case 62 => Column(c, 'M', 'M', 'M', 'M', 'M', 'M', 'M', 'M')
    case _ => Column(c, 'M', 'M', 'M', 'M', 'M', 'M', 'M', '.')
  }

  function Column(c: nat, k0: char, k1: char, k2: char, k3: char, k4: char, k5: char, k6: char, k7: char): char
    requires c < 8
  {
    if c < 4 then if c < 2 then if c == 0 then k0 else k1 else if c == 2 then k2 else k3
    else if c < 6 then if c == 4 then k4 else k5 else if c == 6 then k6 else k7
  }

  predicate HasModRmByte(kind: char)
  {
    kind == 'M' || kind == 'B' || kind == 'Z' || kind == 'T' || kind == 'U'
  }

  /** The flags of the decoder say of an opcode what the grid says. */
  predicate Agrees(op: nat)
    requires op < 0x200
  {
    var kind := Kind(op);
    && IsPrefix(op) == (kind == 'p')
    && HasModRm(op) == HasModRmByte(kind)
    && HasImm8(op) == (kind == 'b' || kind == 'B' || kind == 'e')
    && HasImm16(op) == (kind == 'w' || kind == 'e' || kind == 'f')
    && HasImmZ(op) == (kind == 'z' || kind == 'Z' || kind == 'f' || kind == 'o')
    && (kind == 'x' <==> op == 0x0F) && (kind == 'o' <==> 0xA0 <= op <= 0xA3)
    && (kind == 'T' <==> op == 0xF6) && (kind == 'U' <==> op == 0xF7)
  }

  /** For all 512 opcodes they do. */
  lemma GridIsOpcodeMap(op: nat)
    requires op < 0x200
    ensures Agrees(op)
  {
    hide Agrees;
    match op / 16 {
      case 0 => Row00(op);
      case 1 => Row01(op);
      case 2 => Row02(op);
      case 3 => Row03(op);
      case 4 => Row04(op);
      case 5 => Row05(op);
      case 6 => Row06(op);
      case 7 => Row07(op);
      case 8 => Row08(op);
      case 9 => Row09(op);
      case 10 => Row0A(op);
      case 11 => Row0B(op);
      case 12 => Row0C(op);
      case 13 => Row0D(op);
      case 14 => Row0E(op);
      case 15 => Row0F(op);
      case 16 => Row10(op);
      case 17 => Row11(op);
      case 18 => Row12(op);
      case 19 => Row13(op);
      case 20 => Row14(op);
      case 21 => Row15(op);
      case 22 => Row16(op);
      case 23 => Row17(op);
      case 24 => Row18(op);
      case 25 => Row19(op);
      case 26 => Row1A(op);
      case 27 => Row1B(op);
      case 28 => Row1C(op);
      case 29 => Row1D(op);
      case 30 => Row1E(op);
      case _ => Row1F(op);
    }
  }

  lemma Row00(op: nat)
    requires 0x000 <= op < 0x010
    ensures Agrees(op)
  {
  }

  lemma Row01(op: nat)
    requires 0x010 <= op < 0x020
    ensures Agrees(op)
  {
  }

  lemma Row02(op: nat)
    requires 0x020 <= op < 0x030
    ensures Agrees(op)
  {
  }

  lemma Row03(op: nat)
    requires 0x030 <= op < 0x040
    ensures Agrees(op)
  {
  }

  lemma Row04(op: nat)
    requires 0x040 <= op < 0x050
    ensures Agrees(op)
  {
  }

  lemma Row05(op: nat)
    requires 0x050 <= op < 0x060
    ensures Agrees(op)
  {
  }

  lemma Row06(op: nat)
    requires 0x060 <= op < 0x070
    ensures Agrees(op)
  {
  }

  lemma Row07(op: nat)
    requires 0x070 <= op < 0x080
    ensures Agrees(op)
  {
  }

  lemma Row08(op: nat)
    requires 0x080 <= op < 0x090
    ensures Agrees(op)
  {
  }

  lemma Row09(op: nat)
    requires 0x090 <= op < 0x0A0
    ensures Agrees(op)
  {
  }

  lemma Row0A(op: nat)
    requires 0x0A0 <= op < 0x0B0
    ensures Agrees(op)
  {
  }

  lemma Row0B(op: nat)
    requires 0x0B0 <= op < 0x0C0
    ensures Agrees(op)
  {
  }

  lemma Row0C(op: nat)
    requires 0x0C0 <= op < 0x0D0
    ensures Agrees(op)
  {
  }

  lemma Row0D(op: nat)
    requires 0x0D0 <= op < 0x0E0
    ensures Agrees(op)
  {
  }

  lemma Row0E(op: nat)
    requires 0x0E0 <= op < 0x0F0
    ensures Agrees(op)
  {
  }

  lemma Row0F(op: nat)
    requires 0x0F0 <= op < 0x100
    ensures Agrees(op)
  {
  }

  lemma Row10(op: nat)
    requires 0x100 <= op < 0x110
    ensures Agrees(op)
  {
  }

  lemma Row11(op: nat)
    requires 0x110 <= op < 0x120
    ensures Agrees(op)
  {
  }

  lemma Row12(op: nat)
    requires 0x120 <= op < 0x130
    ensures Agrees(op)
  {
  }

  lemma Row13(op: nat)
    requires 0x130 <= op < 0x140
    ensures Agrees(op)
  {
  }

  lemma Row14(op: nat)
    requires 0x140 <= op < 0x150
    ensures Agrees(op)
  {
  }

  lemma Row15(op: nat)
    requires 0x150 <= op < 0x160
    ensures Agrees(op)
  {
  }

  lemma Row16(op: nat)
    requires 0x160 <= op < 0x170
    ensures Agrees(op)
  {
  }

  lemma Row17(op: nat)
    requires 0x170 <= op < 0x180
    ensures Agrees(op)
  {
  }

  lemma Row18(op: nat)
    requires 0x180 <= op < 0x190
    ensures Agrees(op)
  {
  }

  lemma Row19(op: nat)
    requires 0x190 <= op < 0x1A0
    ensures Agrees(op)
  {
  }

  lemma Row1A(op: nat)
    requires 0x1A0 <= op < 0x1B0
    ensures Agrees(op)
  {
  }

  lemma Row1B(op: nat)
    requires 0x1B0 <= op < 0x1C0
    ensures Agrees(op)
  {
  }

  lemma Row1C(op: nat)
    requires 0x1C0 <= op < 0x1D0
    ensures Agrees(op)
  {
  }

  lemma Row1D(op: nat)
    requires 0x1D0 <= op < 0x1E0
    ensures Agrees(op)
  {
  }

  lemma Row1E(op: nat)
    requires 0x1E0 <= op < 0x1F0
    ensures Agrees(op)
  {
  }

  lemma Row1F(op: nat)
    requires 0x1F0 <= op < 0x200
    ensures Agrees(op)
  {
  }
}
