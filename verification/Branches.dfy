/** The relative branches of the instruction set: which opcodes they are, and where they go. */
module Branches {
  import opened Words

  /** What an instruction does to control: go on to the next one, or branch to an address, under
      condition code `cc`, always, or as a call. */
  datatype Control = Plain | JumpIf(cc: nat, to: word) | JumpTo(to: word) | CallTo(to: word)

  /** A byte displacement as the word that is added to the instruction pointer. */
  function SignExtended(b: byte): word
  {
    if b < 0x80 then b else 0xFFFF_FF00 + b
  }

  /** The instruction at `at`, if it is jcc rel8 (70+cc), jmp rel8 (EB), call rel32 (E8), jmp rel32
      (E9) or jcc rel32 (0F 80+cc). */
  function ControlOf(ins: seq<byte>, at: word): Control
  {
    if |ins| == 2 && ins[0] / 0x10 == 0x7 then JumpIf(ins[0] % 0x10, Wrap(at + 2 + SignExtended(ins[1])))
    else if |ins| == 2 && ins[0] == 0xEB then JumpTo(Wrap(at + 2 + SignExtended(ins[1])))
    else if |ins| == 5 && ins[0] == 0xE8 then CallTo(Wrap(at + 5 + Word4(ins[1..])))
    else if |ins| == 5 && ins[0] == 0xE9 then JumpTo(Wrap(at + 5 + Word4(ins[1..])))
    else if |ins| == 6 && ins[0] == 0x0F && ins[1] / 0x10 == 0x8 then
      JumpIf(ins[1] % 0x10, Wrap(at + 6 + Word4(ins[2..])))
    else Plain
  }

  /** The address a branch goes to. */
  function Target(c: Control): word
    requires !c.Plain?
  {
    match c
    case JumpIf(_, to) => to
    case JumpTo(to) => to
    case CallTo(to) => to
  }
}
