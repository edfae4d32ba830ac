/** The instruction length decoder, and the laws a length decoder must obey. */
module Lde {
  import opened Words
  import opened OpcodeTable

  /** Length of an instruction, and where its opcode starts after the prefixes. */
  datatype Decoded = Decoded(size: nat, opcodeAt: nat)

  // ---------------------------------------------------------------- what a length is

  /** Index of the first byte from `at` on that is not a prefix. */
  function PrefixEnd(code: seq<byte>, at: nat): (k: nat)
    requires at <= |code|
    ensures at <= k <= |code|
    ensures forall i | at <= i < k :: IsPrefix(code[i])
    ensures k < |code| ==> !IsPrefix(code[k])
    decreases |code| - at
  {
    if at < |code| && IsPrefix(code[at]) then PrefixEnd(code, at + 1) else at
  }

  function Mod(modrm: byte): nat { modrm / 0x40 }
  function Reg(modrm: byte): nat { modrm / 8 % 8 }
  function Rm(modrm: byte): nat { modrm % 8 }

  /** A SIB byte follows in 32-bit addressing when the r/m field is 100b and names memory. */
  predicate HasSib(modrm: byte, addr16: bool)
  {
    !addr16 && Rm(modrm) == 4 && Mod(modrm) != 3
  }

  /** Bytes of displacement, by the two addressing-form tables. */
  function DispSize(modrm: byte, sib: byte, addr16: bool): nat
  {
    if Mod(modrm) == 3 then 0
    else if Mod(modrm) == 1 then 1
    else if addr16 then (if Mod(modrm) == 2 || Rm(modrm) == 6 then 2 else 0)
    else if Mod(modrm) == 2 then 4
    else if Rm(modrm) == 5 || (Rm(modrm) == 4 && sib % 8 == 5) then 4
    else 0
  }

  /** Bytes of immediate operand. The TEST forms of F6 and F7 (reg field zero) carry one
      that their group mates do not; A0-A3 take an address, so their size follows 67h. */
  function ImmSize(op: nat, reg: nat, op16: bool, addr16: bool): nat
  {
    var z := if (if 0xA0 <= op <= 0xA3 then addr16 else op16) then 2 else 4;
    Weight(HasImm8(op) || (op == 0xF6 && reg == 0), 1) + Weight(HasImm16(op), 2)
    + Weight(HasImmZ(op) || (op == 0xF7 && reg == 0), z)
  }

  /** Length of the instruction at the start of `code` once its prefixes are gone; none when
      `code` ends before a byte that decides it. */
  function BodySize(code: seq<byte>, op16: bool, addr16: bool): Option<nat>
  {
    if |code| == 0 || (code[0] == 0x0F && |code| == 1) then None
    else
      var opSize := if code[0] == 0x0F then 2 else 1;
      var op: nat := if code[0] == 0x0F then 0x100 + (code[1] as int) else code[0];
      if !HasModRm(op) then Some(opSize + ImmSize(op, 1, op16, addr16))
      else if |code| == opSize then None
      else
        var modrm := code[opSize];
        if !HasSib(modrm, addr16) then
          Some(opSize + 1 + DispSize(modrm, 0, addr16) + ImmSize(op, Reg(modrm), op16, addr16))
        else if |code| == opSize + 1 then None
        else
          var sib := code[opSize + 1];
          Some(opSize + 2 + DispSize(modrm, sib, addr16) + ImmSize(op, Reg(modrm), op16, addr16))
  }

  /** Length and opcode position of the instruction at the start of `code`. */
  function Decode(code: seq<byte>): Option<Decoded>
  {
    var k := PrefixEnd(code, 0);
    match BodySize(code[k..], 0x66 in code[..k], 0x67 in code[..k])
    case None => None
    case Some(n) => Some(Decoded(k + n, k))
  }

  // ---------------------------------------------------------------- the decoder

  /** The ModR/M block of the decoder: the bytes of displacement plus the SIB byte, where
      `rest` is what follows the ModR/M byte. */
  method OffsetLength(modrm: byte, rest: seq<byte>, pfx67: nat) returns (r: Option<nat>)
    ensures r == if !HasSib(modrm, pfx67 != 0) then Some(DispSize(modrm, 0, pfx67 != 0))
                 else if rest == [] then None
                 else Some(1 + DispSize(modrm, rest[0], pfx67 != 0))
  {
    var oflen := 0;
    var mod, rm := modrm / 0x40, modrm % 8;
    match mod {
      case 0 =>
        if pfx67 != 0 {
          if rm == 6 { oflen := 2; }
        } else {
          if rm == 5 { oflen := 4; }
        }
      case 1 => oflen := 1;
      case 2 => oflen := if pfx67 != 0 then 2 else 4;
      case _ =>
    }
    if pfx67 == 0 && rm == 4 && mod != 3 {
      if rest == [] { return None; }
      if rest[0] % 8 == 5 && mod != 1 {
        oflen := 4;
      }
      oflen := oflen + 1;
    }
    return Some(oflen);
  }

  /** In the F6 and F7 groups an immediate is present only when the reg field is zero. */
  method TestImmediate(flags: nat, op1: nat, reg: nat) returns (r: nat)
    requires op1 == 0xF6 || op1 == 0xF7 ==> flags == FlagsOf(op1)
    ensures FlagOn(r, DATA_PRE66_67) == (FlagOn(flags, DATA_PRE66_67) || (op1 == 0xF7 && reg == 0))
    ensures r % 8 == flags % 8 + Weight(op1 == 0xF6 && reg == 0, 1)
  {
    r := flags;
    if op1 == 0xF6 && reg == 0 {
      r := SetFlag(r, DATA_I8);
    }
    if op1 == 0xF7 && reg == 0 {
      r := SetFlag(r, DATA_PRE66_67);
    }
  }

  /** The decoder after its prefix loop: `code` starts at the opcode. */
  method BodyLength(code: seq<byte>, pfx66In: nat, pfx67: nat) returns (r: Option<nat>)
    requires |code| > 0 && pfx66In <= 1 && pfx67 <= 1
    ensures r == BodySize(code, pfx66In != 0, pfx67 != 0)
  {
    hide HasModRm, HasImm8, HasImm16, HasImmZ, FlagsOf, FlagOn, HasSib, DispSize, ImmSize;
    var at, osize := 1, 1;
    var pfx66 := pfx66In;
    var op1: nat := code[0];
    var op2 := op1;
    if op1 == 0x0F {
      if at == |code| { return None; }
      op2 := 0x100 + (code[at] as int);
      at := at + 1;
      osize := osize + 1;
    } else if 0xA0 <= op2 <= 0xA3 {
      pfx66 := pfx67;
    }
    var flags := GetOpCodeFlags32(op2);
    FlagBits(op2);
    ghost var reg := 1;

    if FlagOn(flags, MODRM) {
      if at == |code| { return None; }
      var modrm := code[at];
      reg := Reg(modrm);
      at := at + 1;
      osize := osize + 1;
      flags := TestImmediate(flags, op1, Reg(modrm));
      var oflen := OffsetLength(modrm, code[at..], pfx67);
      if oflen.None? { return None; }
      osize := osize + oflen.value;
    }
    ImmediateSize(op2, reg, flags, pfx66, pfx66In, pfx67);
    if FlagOn(flags, DATA_PRE66_67) {
      osize := osize + 4 - 2 * pfx66;
    }
    osize := osize + flags % 8;
    return Some(osize);
  }

  /** The last two additions of the decoder come to the declared immediate size. */
  lemma ImmediateSize(op: nat, reg: nat, flags: nat, pfx66: nat, pfx66In: nat, pfx67: nat)
    requires pfx66In <= 1 && pfx67 <= 1 && pfx66 == if 0xA0 <= op <= 0xA3 then pfx67 else pfx66In
    requires FlagOn(flags, DATA_PRE66_67) == (HasImmZ(op) || (op == 0xF7 && reg == 0))
    requires flags % 8 == Weight(HasImm8(op), 1) + Weight(HasImm16(op), 2) + Weight(op == 0xF6 && reg == 0, 1)
    ensures (if FlagOn(flags, DATA_PRE66_67) then 4 - 2 * pfx66 else 0) + flags % 8
         == ImmSize(op, reg, pfx66In != 0, pfx67 != 0)
  {
    assert !HasImm8(0xF6);
    hide HasImm8, HasImm16, HasImmZ, FlagOn;
  }

  lemma NoBody(code: seq<byte>, op16: bool, addr16: bool)
    requires code == []
    ensures BodySize(code, op16, addr16) == None
  {
  }

  /** LdeGetOpCodeSize32 on the readable bytes from the code pointer on. */
  method LdeGetOpCodeSize32(code: seq<byte>) returns (r: Option<Decoded>)
    ensures r == Decode(code)
  {
    hide BodySize, FlagsOf, IsPrefix;
    var pfx66, pfx67, osize := 0, 0, 0;
    var at := 0;
    if at == |code| {
      NoBody(code[at..], 0x66 in code[..at], 0x67 in code[..at]);
      return None;
    }
    var op1: nat := code[at];
    var flags := GetOpCodeFlags32(op1);
    FlagBits(op1);
    while FlagOn(flags, PREFIX)
      invariant at == osize < |code| && op1 == code[at]
      invariant FlagOn(flags, PREFIX) == IsPrefix(op1)
      invariant PrefixEnd(code, 0) == PrefixEnd(code, at)
      invariant pfx66 == Weight(0x66 in code[..at], 1) && pfx67 == Weight(0x67 in code[..at], 1)
      decreases |code| - at
    {
      assert code[..at + 1] == code[..at] + [code[at]];
      if op1 == 0x66 {
        pfx66 := 1;
      } else if op1 == 0x67 {
        pfx67 := 1;
      }
      osize := osize + 1;
      at := at + 1;
      if at == |code| {
        NoBody(code[at..], 0x66 in code[..at], 0x67 in code[..at]);
        return None;
      }
      op1 := code[at];
      flags := GetOpCodeFlags32(op1);
      FlagBits(op1);
    }
    var body := BodyLength(code[at..], pfx66, pfx67);
    if body.None? { return None; }
    return Some(Decoded(osize + body.value, at));
  }

  // ---------------------------------------------------------------- laws

  /** A byte-for-byte match on the bytes of `a` below index `n` that exist. */
  predicate AgreeBelow(a: seq<byte>, b: seq<byte>, n: nat)
  {
    forall i | 0 <= i < n && i < |a| :: i < |b| && b[i] == a[i]
  }

  lemma AgreesAt(a: seq<byte>, b: seq<byte>, n: nat, i: nat)
    requires AgreeBelow(a, b, n) && i < n && i < |a|
    ensures i < |b| && b[i] == a[i]
  {
  }

  lemma AgreesBehind(a: seq<byte>, b: seq<byte>, n: nat, k: nat)
    requires AgreeBelow(a, b, n) && k <= n && k <= |a| && k <= |b|
    ensures AgreeBelow(a[k..], b[k..], n - k)
  {
    forall i | 0 <= i < n - k && i < |a[k..]| ensures i < |b[k..]| && b[k..][i] == a[k..][i] {
      AgreesAt(a, b, n, k + i);
    }
  }

  lemma {:induction false} PrefixEndAgrees(a: seq<byte>, b: seq<byte>, at: nat, n: nat)
    requires at <= |a| && at <= |b| && AgreeBelow(a, b, n) && PrefixEnd(a, at) < |a| && PrefixEnd(a, at) < n
    ensures PrefixEnd(b, at) == PrefixEnd(a, at)
    decreases |a| - at
  {
    hide IsPrefix;
    AgreesAt(a, b, n, at);
    if IsPrefix(a[at]) {
      PrefixEndAgrees(a, b, at + 1, n);
    }
  }

  /** The decoder looks only at bytes it counts: whatever agrees with `a` on the instruction's
      own bytes has the same length. */
  lemma SelfDelimiting(a: seq<byte>, b: seq<byte>)
    requires Decode(a).Some? && AgreeBelow(a, b, Decode(a).value.size)
    ensures Decode(b) == Decode(a)
  {
    hide BodySize, IsPrefix;
    var k := PrefixEnd(a, 0);
    var n := Decode(a).value.size;
    BodyIsPositive(a[k..], 0x66 in a[..k], 0x67 in a[..k]);
    assert k < |a| && k < n;
    AgreesAt(a, b, n, k);
    PrefixEndAgrees(a, b, 0, n);
    assert a[..k] == b[..k] by {
      forall i | 0 <= i < k ensures a[i] == b[i] {
        AgreesAt(a, b, n, i);
      }
    }
    AgreesBehind(a, b, n, k);
    BodyAgrees(a[k..], b[k..], 0x66 in a[..k], 0x67 in a[..k]);
  }

  /** Between one and eleven bytes follow the prefixes. */
  lemma BodyIsPositive(code: seq<byte>, op16: bool, addr16: bool)
    requires BodySize(code, op16, addr16).Some?
    ensures code != []
    ensures 1 <= BodySize(code, op16, addr16).value <= 11
  {
  }

  lemma BodyAgrees(a: seq<byte>, b: seq<byte>, op16: bool, addr16: bool)
    requires BodySize(a, op16, addr16).Some? && AgreeBelow(a, b, BodySize(a, op16, addr16).value)
    ensures BodySize(b, op16, addr16) == BodySize(a, op16, addr16)
  {
    hide HasModRm, HasImm8, HasImm16, HasImmZ, HasSib, DispSize;
    assert b[0] == a[0];
  }

  /** Every accepted encoding is a run of prefixes, then a non-prefix opcode, then at most
      ten more bytes. */
  lemma PrefixesThenBody(code: seq<byte>)
    requires Decode(code).Some?
    ensures var Decoded(n, k) := Decode(code).value;
            && k == PrefixEnd(code, 0) < |code| && !IsPrefix(code[k])
            && Some(n - k) == BodySize(code[k..], 0x66 in code[..k], 0x67 in code[..k])
            && 1 <= n - k <= 11
  {
    hide BodySize, IsPrefix;
    var k := PrefixEnd(code, 0);
    BodyIsPositive(code[k..], 0x66 in code[..k], 0x67 in code[..k]);
  }

  /** The table knows the escapes to the three-byte maps, 0F 38 and 0F 3A, as whole instructions: of
      whatever follows them it counts nothing. */
  lemma ThreeByteMapsAreCutShort(code: seq<byte>)
    requires |code| >= 2 && code[0] == 0x0F && (code[1] == 0x38 || code[1] == 0x3A)
    ensures Decode(code) == Some(Decoded(2, 0)) && Whole(code[..2])
  {
    assert code[0..] == code && code[..0] == [];
    var escape := code[..2];
    assert escape[0..] == escape && escape[..0] == [];
  }

  /** Nor does it know that 0F B8 has a ModR/M byte, as in popcnt (F3 0F B8). */
  lemma PopcntIsCutShort(code: seq<byte>)
    requires |code| >= 3 && code[0] == 0xF3 && code[1] == 0x0F && code[2] == 0xB8
    ensures Decode(code) == Some(Decoded(3, 1)) && Whole(code[..3])
  {
    hide BodySize;
    LateOpcode(code);
    LateOpcode(code[..3]);
  }

  lemma LateOpcode(code: seq<byte>)
    requires |code| >= 3 && code[0] == 0xF3 && code[1] == 0x0F && code[2] == 0xB8
    ensures Decode(code) == Some(Decoded(3, 1))
  {
    assert PrefixEnd(code, 1) == 1;
    assert BodySize(code[1..], false, false) == Some(2);
    assert 0x66 !in code[..1] && 0x67 !in code[..1];
  }

  // ---------------------------------------------------------------- instruction streams

  /** `ins` is exactly one instruction. */
  predicate Whole(ins: seq<byte>)
  {
    Decode(ins).Some? && Decode(ins).value.size == |ins|
  }

  predicate AllWhole(list: seq<seq<byte>>)
  {
    forall i | 0 <= i < |list| :: Whole(list[i])
  }

  function Flatten(list: seq<seq<byte>>): (code: seq<byte>)
  {
    if list == [] then [] else list[0] + Flatten(list[1..])
  }

  /** The first `n` bytes of `code` cut into instructions; none when no cut ends there. */
  function Instructions(code: seq<byte>, n: int): Option<seq<seq<byte>>>
    decreases |code|
  {
    if n == 0 then Some([])
    else match Decode(code)
      case None => None
      case Some(d) =>
        if d.size == 0 || d.size > |code| then None
        else match Instructions(code[d.size..], n - d.size)
          case None => None
          case Some(rest) => Some([code[..d.size]] + rest)
  }

  /** An instruction has at least one byte, and stays itself whatever follows it. */
  lemma WholeStandsAlone(ins: seq<byte>, tail: seq<byte>)
    requires Whole(ins)
    ensures |ins| > 0
    ensures Decode(ins + tail) == Decode(ins)
    ensures (ins + tail)[..|ins|] == ins && (ins + tail)[|ins|..] == tail
  {
    hide Decode;
    SelfDelimiting(ins, ins + tail);
    SizeIsPositive(ins);
  }

  lemma SizeIsPositive(code: seq<byte>)
    requires Decode(code).Some?
    ensures Decode(code).value.size > 0
  {
    PrefixesThenBody(code);
    hide BodySize;
  }

  /** What the decoder cuts off is one whole instruction. */
  lemma CutIsWhole(code: seq<byte>)
    requires Decode(code).Some? && Decode(code).value.size <= |code|
    ensures Whole(code[..Decode(code).value.size])
  {
    hide Decode;
    SelfDelimiting(code, code[..Decode(code).value.size]);
  }

  /** No instruction is a proper prefix of another. */
  lemma NoProperPrefix(a: seq<byte>, b: seq<byte>)
    requires Whole(a) && Whole(b) && a <= b
    ensures a == b
  {
    hide Decode;
    WholeStandsAlone(a, b[|a|..]);
    assert a + b[|a|..] == b;
  }

  /** Cutting a concatenation of instructions gives back exactly those instructions ... */
  lemma {:induction false} CutRecoversBoundaries(list: seq<seq<byte>>, tail: seq<byte>)
    requires AllWhole(list)
    ensures Instructions(Flatten(list) + tail, |Flatten(list)|) == Some(list)
  {
    hide Decode;
    if list != [] {
      var rest := Flatten(list[1..]);
      assert Whole(list[0]);
      WholeStandsAlone(list[0], rest + tail);
      assert Flatten(list) + tail == list[0] + (rest + tail);
      CutRecoversBoundaries(list[1..], tail);
      assert [list[0]] + list[1..] == list;
    }
  }

  /** ... and any cut that succeeds consists of instructions and loses no byte. */
  lemma {:induction false} CutLosesNothing(code: seq<byte>, n: int)
    requires Instructions(code, n).Some?
    ensures 0 <= n <= |code|
    ensures AllWhole(Instructions(code, n).value)
    ensures Flatten(Instructions(code, n).value) == code[..n]
    decreases |code|
  {
    hide Decode;
    if n != 0 {
      var d := Decode(code).value;
      CutIsWhole(code);
      CutLosesNothing(code[d.size..], n - d.size);
      assert code[..d.size] + code[d.size..][..n - d.size] == code[..n];
    }
  }

  // ---------------------------------------------------------------- offsets in a list of instructions

  /** Where instruction `k` of a list starts. */
  function Offset(list: seq<seq<byte>>, k: nat): nat
    requires k <= |list|
  {
    |Flatten(list[..k])|
  }

  lemma {:induction false} FlattenSplits(list: seq<seq<byte>>, k: nat)
    requires k <= |list|
    ensures Flatten(list) == Flatten(list[..k]) + Flatten(list[k..])
  {
    if k > 0 {
      FlattenSplits(list[1..], k - 1);
      assert list[..k][1..] == list[1..][..k - 1];
      assert list[1..][k - 1..] == list[k..];
    } else {
      assert list[..k] == [] && list[k..] == list;
    }
  }

  lemma OffsetStep(list: seq<seq<byte>>, k: nat)
    requires k < |list|
    ensures Offset(list, k + 1) == Offset(list, k) + |list[k]|
    ensures Offset(list, k + 1) <= |Flatten(list)| == Offset(list, |list|)
  {
    FlattenSplits(list[..k + 1], k);
    FlattenSplits(list, k + 1);
    assert list[..k + 1][..k] == list[..k];
    assert list[..k + 1][k..] == [list[k]];
    assert Flatten([list[k]]) == list[k];
    assert list[..|list|] == list;
  }

  lemma OffsetCons(list: seq<seq<byte>>, k: nat)
    requires 0 < k <= |list|
    ensures Offset(list, k) == |list[0]| + Offset(list[1..], k - 1)
  {
    assert list[..k][1..] == list[1..][..k - 1];
  }

  lemma StartsAtZero(list: seq<seq<byte>>)
    ensures Offset(list, 0) == 0
  {
    assert list[..0] == [];
  }

  lemma WholeLists(list: seq<seq<byte>>)
    ensures Offset(list, |list|) == |Flatten(list)|
  {
    assert list[..|list|] == list;
  }

  lemma PositiveOffset(list: seq<seq<byte>>, k: nat)
    requires AllWhole(list) && 0 < k <= |list|
    ensures Offset(list, k) > 0
  {
    hide Decode;
    OffsetStep(list, k - 1);
    assert Whole(list[k - 1]);
    WholeStandsAlone(list[k - 1], []);
  }
}
