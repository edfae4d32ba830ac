/** Copying the instructions of a hook site into a trampoline: relative branches that leave
    the site are rewritten in long form, everything else is copied byte for byte. */
module Relocation {
  import opened Words
  import opened OpcodeTable
  import opened Lde
  import opened Branches

  datatype Branch = Jcc(cond: nat) | Jmp | Call

  /** What the copier sees in an instruction: a relative branch it knows, or just bytes. */
  datatype Form = Relative(branch: Branch, disp: int) | Verbatim

  function FormOf(ins: seq<byte>): (f: Form)
    ensures f.Relative? && f.branch.Jcc? ==> f.branch.cond < 16
  {
    if |ins| >= 2 && 0x70 <= ins[0] <= 0x7F then Relative(Jcc(ins[0] - 0x70), SignedByte(ins[1]))
    else if |ins| >= 2 && ins[0] == 0xEB then Relative(Jmp, SignedByte(ins[1]))
    else if |ins| >= 5 && ins[0] == 0xE8 then Relative(Call, SignedWord(Word4(ins[1..])))
    else if |ins| >= 5 && ins[0] == 0xE9 then Relative(Jmp, SignedWord(Word4(ins[1..])))
    else if |ins| >= 6 && ins[0] == 0x0F && 0x80 <= ins[1] <= 0x8F then
      Relative(Jcc(ins[1] - 0x80), SignedWord(Word4(ins[2..])))
    else Verbatim
  }

  /** Where a branch placed at `at` goes. */
  function TargetOf(ins: seq<byte>, at: word): word
    requires FormOf(ins).Relative?
  {
    Wrap(at + |ins| + FormOf(ins).disp)
  }

  /** The inside/outside test of the copier, on the displacement counted from the start of the
      instruction. `forward` counts the bytes of the site from this instruction on, `backward`
      the bytes before it. Going back the comparison is strict, so a branch to the very first
      byte of the site counts as leaving. */
  predicate Leaves(size: nat, disp: int, forward: word, backward: word)
  {
    var newOffset := SignedWord(Wrap(size + disp));
    if newOffset < 0 then Wrap(-newOffset) >= backward else newOffset >= forward
  }

  function LongSize(branch: Branch): nat
  {
    if branch.Jcc? then 6 else 5
  }

  /** The long encoding of a branch. */
  function LongForm(branch: Branch, disp: word): (ins: seq<byte>)
    requires branch.Jcc? ==> branch.cond < 16
    ensures |ins| == LongSize(branch)
  {
    match branch
    case Jcc(cond) => [0x0F, 0x80 + cond] + Bytes4(disp)
    case Jmp => [0xE9] + Bytes4(disp)
    case Call => [0xE8] + Bytes4(disp)
  }

  predicate Rewritten(ins: seq<byte>, forward: word, backward: word)
  {
    FormOf(ins).Relative? && Leaves(|ins|, FormOf(ins).disp, forward, backward)
  }

  /** The copy, placed at `dst`, of the instruction at `src`. */
  function Copy(ins: seq<byte>, src: word, dst: word, forward: word, backward: word): seq<byte>
  {
    if Rewritten(ins, forward, backward) then
      var branch := FormOf(ins).branch;
      LongForm(branch, Wrap(TargetOf(ins, src) - (dst + LongSize(branch))))
    else ins
  }

  // ---------------------------------------------------------------- one instruction

  /** The recognised branch forms have fixed lengths. */
  lemma BranchLength(code: seq<byte>)
    requires |code| > 0
    ensures 0x70 <= code[0] <= 0x7F || code[0] == 0xEB ==> Decode(code) == Some(Decoded(2, 0))
    ensures code[0] == 0xE8 || code[0] == 0xE9 ==> Decode(code) == Some(Decoded(5, 0))
    ensures |code| >= 2 && code[0] == 0x0F && 0x80 <= code[1] <= 0x8F ==> Decode(code) == Some(Decoded(6, 0))
  {
    assert code[0..] == code && code[..0] == [];
  }

  /** A rewritten branch is one instruction, of the same kind, with the same destination. */
  lemma LongFormDecodes(branch: Branch, disp: word)
    requires branch.Jcc? ==> branch.cond < 16
    ensures Whole(LongForm(branch, disp))
    ensures FormOf(LongForm(branch, disp)) == Relative(branch, SignedWord(disp))
  {
    hide Decode;
    var ins := LongForm(branch, disp);
    BranchLength(ins);
    assert if branch.Jcc? then ins[2..] == Bytes4(disp) else ins[1..] == Bytes4(disp);
  }

  lemma CopyKeepsMeaning(ins: seq<byte>, src: word, dst: word, forward: word, backward: word)
    requires Whole(ins)
    ensures var copy := Copy(ins, src, dst, forward, backward);
            && Whole(copy)
            && (if Rewritten(ins, forward, backward)
                then FormOf(copy).Relative? && FormOf(copy).branch == FormOf(ins).branch
                     && |copy| == LongSize(FormOf(ins).branch) && TargetOf(copy, dst) == TargetOf(ins, src)
                else copy == ins)
  {
    hide Decode, FormOf, LongForm, Leaves, Wrap;
    if Rewritten(ins, forward, backward) {
      var branch := FormOf(ins).branch;
      var next := dst + LongSize(branch);
      LongFormDecodes(branch, Wrap(TargetOf(ins, src) - next));
      DisplacementReaches(TargetOf(ins, src), next);
    }
  }

  /** A displacement computed modulo 2^32 and read back as signed still reaches its target. */
  lemma DisplacementReaches(target: word, next: int)
    ensures Wrap(next + SignedWord(Wrap(target - next))) == target
  {
    var disp := Wrap(target - next);
    WrapSum(target - next, next);
    WrapShift(next + disp, if disp < 0x8000_0000 then 0 else 1);
  }

  /** Copies never shrink; a two-byte branch grows to at most three times its size. */
  lemma CopyGrowth(ins: seq<byte>, src: word, dst: word, forward: word, backward: word)
    requires Whole(ins)
    ensures var copy := Copy(ins, src, dst, forward, backward);
            && |ins| <= |copy| <= 3 * |ins|
            && (|copy| > |ins| <==> |ins| == 2 && Rewritten(ins, forward, backward))
            && |copy| <= |ins| + 4
  {
    hide Decode;
    WholeStandsAlone(ins, []);
    BranchLength(ins);
  }

  /** What the copy of an instruction takes more room than the instruction: a two-byte jcc that
      leaves the site grows by four bytes, a two-byte jmp that leaves by three. */
  function Widening(ins: seq<byte>, forward: word, backward: word): nat
  {
    if |ins| == 2 && Rewritten(ins, forward, backward) then (if FormOf(ins).branch.Jcc? then 4 else 3) else 0
  }

  lemma CopySize(ins: seq<byte>, src: word, dst: word, forward: word, backward: word)
    requires Whole(ins)
    ensures |Copy(ins, src, dst, forward, backward)| == |ins| + Widening(ins, forward, backward)
  {
    hide Decode, Leaves, Wrap, Word4, TargetOf;
    WholeStandsAlone(ins, []);
    BranchLength(ins);
  }

  /** What the copier takes an instruction for is what it is. */
  lemma FormIsControl(ins: seq<byte>, at: word)
    requires Whole(ins)
    ensures ControlOf(ins, at)
         == match FormOf(ins)
            case Verbatim => Plain
            case Relative(Jcc(cond), _) => JumpIf(cond, TargetOf(ins, at))
            case Relative(Jmp, _) => JumpTo(TargetOf(ins, at))
            case Relative(Call, _) => CallTo(TargetOf(ins, at))
  {
    hide Decode, Word4, Wrap;
    WholeStandsAlone(ins, []);
    BranchLength(ins);
    if FormOf(ins).Relative? {
      if |ins| == 2 {
        SameShortSum(at + 2, ins[1]);
      } else {
        SameLongSum(at + |ins|, Word4(if |ins| == 5 then ins[1..] else ins[2..]));
      }
    }
  }

  lemma SameShortSum(a: int, b: byte)
    ensures Wrap(a + SignExtended(b)) == Wrap(a + SignedByte(b))
  {
    WrapShift(a + SignExtended(b), if b < 0x80 then 0 else 1);
  }

  lemma SameLongSum(a: int, w: word)
    ensures Wrap(a + w) == Wrap(a + SignedWord(w))
  {
    WrapShift(a + w, if w < 0x8000_0000 then 0 else 1);
  }

  /** A rewritten branch in bytes: the same condition or kind with a four-byte displacement ... */
  lemma CopyInBytes(ins: seq<byte>, src: word, dst: word, forward: word, backward: word)
    requires Whole(ins) && Rewritten(ins, forward, backward)
    ensures var copy := Copy(ins, src, dst, forward, backward);
            && (0x70 <= ins[0] <= 0x7F ==> |copy| == 6 && copy[0] == 0x0F && copy[1] == ins[0] + 0x10)
            && (ins[0] == 0xEB || ins[0] == 0xE9 ==> |copy| == 5 && copy[0] == 0xE9)
            && (ins[0] == 0xE8 ==> |copy| == 5 && copy[0] == 0xE8)
            && (ins[0] == 0x0F ==> |copy| == 6 && copy[..2] == ins[..2])
            && (0x70 <= ins[0] <= 0x7F || ins[0] == 0xEB || ins[0] == 0xE8 || ins[0] == 0xE9 || ins[0] == 0x0F)
  {
    hide Decode, Word4, Wrap, Leaves, Bytes4, TargetOf;
    WholeStandsAlone(ins, []);
  }

  /** ... that does to control what the original did. */
  lemma CopyControls(ins: seq<byte>, src: word, dst: word, forward: word, backward: word)
    requires Whole(ins) && Rewritten(ins, forward, backward)
    ensures ControlOf(Copy(ins, src, dst, forward, backward), dst) == ControlOf(ins, src)
  {
    hide Decode, FormOf, Leaves, Wrap, LongForm, ControlOf;
    CopyKeepsMeaning(ins, src, dst, forward, backward);
    FormIsControl(ins, src);
    FormIsControl(Copy(ins, src, dst, forward, backward), dst);
  }

  /** LOOP and JECXZ are copied verbatim even when they leave the site: the copy goes where the
      instruction went only if it stands where the instruction stood. */
  lemma LoopIsNotRelocated(ins: seq<byte>, src: word, dst: word, forward: word, backward: word)
    requires Whole(ins) && 0xE0 <= ins[0] <= 0xE3
    ensures |ins| == 2 && Copy(ins, src, dst, forward, backward) == ins
    ensures Wrap(dst + 2 + SignedByte(ins[1])) == Wrap(src + 2 + SignedByte(ins[1])) <==> dst == src
  {
    hide Leaves, Word4;
    assert ins[0..] == ins && ins[..0] == [];
  }

  // ---------------------------------------------------------------- the copier

  /** The instruction at the start of `code`, when all of it is readable. */
  function First(code: seq<byte>): (ins: seq<byte>)
    ensures ins <= code
  {
    match Decode(code)
    case Some(d) => if d.size <= |code| then code[..d.size] else []
    case None => []
  }

  /** The opcode the copier keeps in a word, as the bytes it stores. */
  function OpCodeBytes(opCode: nat, length: nat): (s: seq<byte>)
    requires opCode < 0x1_0000
    ensures |s| == if length == 1 then 1 else 2
  {
    if length == 1 then [opCode % 0x100] else [opCode % 0x100, opCode / 0x100]
  }

  /** The opcode tests of CopyOneOpCode: whether `ins` is a branch it rewrites, the opcode of
      the long form in a 16-bit word, and the displacement in the instruction. */
  method Recognise(ins: seq<byte>) returns (found: bool, opCode: nat, opCodeLength: nat, opOffset: int)
    requires Whole(ins)
    ensures found == FormOf(ins).Relative? && opCode < 0x1_0000 && 1 <= opCodeLength <= 2
    ensures found ==> opOffset == FormOf(ins).disp && opCodeLength + 4 == LongSize(FormOf(ins).branch)
    ensures found ==> forall disp ::
              LongForm(FormOf(ins).branch, disp) == OpCodeBytes(opCode, opCodeLength) + Bytes4(disp)
  {
    hide Decode, Word4, Bytes4;
    WholeStandsAlone(ins, []);
    BranchLength(ins);
    opCode, opCodeLength, opOffset := ins[0], 2, 0;
    if opCode / 0x10 == 7 {
      opCode := 0x800F + (opCode - 0x70) * 0x100;
      return true, opCode, opCodeLength, SignedByte(ins[1]);
    } else if opCode == 0xEB {
      return true, 0xE9, 1, SignedByte(ins[1]);
    } else if opCode == 0xE8 || opCode == 0xE9 {
      return true, opCode, 1, SignedWord(Word4(ins[1..]));
    } else {
      // The copier reads a 16-bit opcode here; its high byte matters only after 0F.
      var second: nat := if |ins| >= 2 then ins[1] else 0;
      found := (opCode * 0x100 + second) / 0x10 == 0x0F8;
      opCode := opCode + second * 0x100;
      opOffset := if found then SignedWord(Word4(ins[2..])) else 0;
    }
  }

  /** CopyOneOpCode: writes the copy of the instruction at the start of `code` (readable bytes
      from address `source` on) to `target[at..]`, which lies at address `targetIp`. Returns the
      target and source lengths, or none if the instruction runs out of readable memory. */
  method CopyOneOpCode(target: array<byte>, at: nat, targetIp: word,
                       code: seq<byte>, source: word, forward: word, backward: word)
    returns (r: Option<(nat, nat)>)
    requires First(code) != [] ==> at + |Copy(First(code), source, targetIp, forward, backward)| <= target.Length
    modifies target
    ensures First(code) == [] ==> r == None && target[..] == old(target[..])
    ensures First(code) != [] ==>
              var copy := Copy(First(code), source, targetIp, forward, backward);
              r == Some((|copy|, |First(code)|)) && target[..] == Splice(old(target[..]), at, copy)
  {
    hide Decode, Wrap, FormOf, Leaves, LongForm, Splice, Bytes4, OpCodeBytes, Whole, SignedWord;
    var d := LdeGetOpCodeSize32(code);
    if d.None? || d.value.size > |code| { return None; }
    var length := d.value.size;
    SizeIsPositive(code);
    CutIsWhole(code);
    var found, opCode, opCodeLength, opOffset := Recognise(code[..length]);
    if !found {
      Store(target, at, code[..length]);
      return Some((length, length));
    }
    var inside := Inside(length, opOffset, forward, backward);
    if inside {
      Store(target, at, code[..length]);
      return Some((length, length));
    }

    var nextOpAddress := Wrap(source + length);
    var newOffset := Wrap(nextOpAddress + opOffset - (targetIp + opCodeLength + 4));
    WrapGroups(source + length, opOffset, targetIp + opCodeLength + 4);
    var head := OpCodeBytes(opCode, opCodeLength);
    Store(target, at, head);
    Store(target, at + |head|, Bytes4(newOffset));
    SpliceTwice(old(target[..]), at, head, Bytes4(newOffset));
    return Some((|head| + 4, length));
  }

  /** The inside test as the copier computes it. */
  method Inside(length: nat, opOffset: int, forward: word, backward: word) returns (r: bool)
    ensures r == !Leaves(length, opOffset, forward, backward)
  {
    var newOffset := SignedWord(Wrap(length + opOffset));
    if newOffset < 0 {
      return Wrap(-newOffset) < backward;
    }
    return newOffset < forward;
  }

  lemma WrapGroups(a: int, b: int, c: int)
    ensures Wrap(Wrap(a) + b - c) == Wrap(Wrap(a + b) - c)
  {
    WrapSum(a, b - c);
    WrapSum(a + b, -c);
  }

  // ---------------------------------------------------------------- the whole stub

  datatype Stop = Reached | AtReturn | OutOfCode

  /** Instructions taken one after another, and why the taking stopped. */
  datatype Scan = Scan(ins: seq<seq<byte>>, stop: Stop)

  predicate StartsWithReturn(code: seq<byte>)
  {
    |code| > 0 && (code[0] == 0xC2 || code[0] == 0xC3)
  }

  /** Instructions from the start of `code` until at least `need` bytes are taken, stopping
      short at a near return. */
  function Take(code: seq<byte>, need: int): Scan
    decreases |code|
  {
    if need <= 0 then Scan([], Reached)
    else if StartsWithReturn(code) then Scan([], AtReturn)
    else if First(code) == [] then Scan([], OutOfCode)
    else
      var ins := First(code);
      var rest := Take(code[|ins|..], need - |ins|);
      Scan([ins] + rest.ins, rest.stop)
  }

  /** Copies of `ins` laid out from `dst` on, when the originals lie from `src` on. */
  function Stub(ins: seq<seq<byte>>, src: word, dst: word, forward: word, backward: word): (copies: seq<seq<byte>>)
    ensures |copies| == |ins|
  {
    if ins == [] then []
    else
      var copy := Copy(ins[0], src, dst, forward, backward);
      [copy] + Stub(ins[1..], Wrap(src + |ins[0]|), Wrap(dst + |copy|),
                    Wrap(forward - |ins[0]|), Wrap(backward + |ins[0]|))
  }

  /** The bytes CopyTrampolineStub emits. */
  function StubBytes(ins: seq<seq<byte>>, src: word, dst: word, size: word): seq<byte>
  {
    Flatten(Stub(ins, src, dst, size, 0))
  }

  /** CopyTrampolineStub: copies the instructions at `address` (whose readable bytes are `code`)
      into `trampoline[at..]`, which lies at address `targetIp`, until `copyOpSize` bytes are
      consumed. Returns why it stopped and where the emitted bytes end. */
  method CopyTrampolineStub(trampoline: array<byte>, at: nat, targetIp: word,
                            code: seq<byte>, address: word, copyOpSize: word)
    returns (stop: Stop, end: nat)
    requires at + |StubBytes(Take(code, copyOpSize).ins, address, targetIp, copyOpSize)| <= trampoline.Length
    modifies trampoline
    ensures stop == Take(code, copyOpSize).stop
    ensures var stub := StubBytes(Take(code, copyOpSize).ins, address, targetIp, copyOpSize);
            end == at + |stub| && trampoline[..] == Splice(old(trampoline[..]), at, stub)
  {
    hide *;
    ghost var was := trampoline[..];
    ghost var all := StubBytes(Take(code, copyOpSize).ins, address, targetIp, copyOpSize);
    ghost var done: seq<byte> := [];
    var source, sourceIp, bytes := 0, address, copyOpSize as int;
    var forward, backward, ip := copyOpSize, 0, targetIp;
    end := at;
    SpliceNothing(was, at);
    StubBytesIsFlat(Take(code, copyOpSize).ins, address, targetIp, copyOpSize);
    assert code[source..] == code;
    while bytes > 0
      invariant source <= |code|
      invariant Take(code, copyOpSize).stop == Take(code[source..], bytes).stop
      invariant all == done + Flatten(Stub(Take(code[source..], bytes).ins, sourceIp, ip, forward, backward))
      invariant end == at + |done| && trampoline[..] == Splice(was, at, done)
      decreases |code| - source
    {
      var rest := code[source..];
      ghost var ins := First(rest);
      TakeStep(rest, bytes, sourceIp, ip, forward, backward);
      if StartsWithReturn(rest) { return AtReturn, end; }
      var r := CopyOneOpCode(trampoline, end, ip, rest, sourceIp, forward, backward);
      if r.None? { return OutOfCode, end; }
      ghost var copy := Copy(ins, sourceIp, ip, forward, backward);
      var (targetLength, sourceLength) := r.value;
      SpliceTwice(was, at, done, copy);
      assert code[source + sourceLength..] == rest[sourceLength..];
      done := done + copy;
      backward := Wrap(backward + sourceLength);
      forward := Wrap(forward - sourceLength);
      end := end + targetLength;
      ip := Wrap(ip + targetLength);
      source := source + sourceLength;
      sourceIp := Wrap(sourceIp + sourceLength);
      bytes := bytes - sourceLength;
    }
    TakeStep(code[source..], bytes, sourceIp, ip, forward, backward);
    return Reached, end;
  }

  lemma StubBytesIsFlat(ins: seq<seq<byte>>, src: word, dst: word, size: word)
    ensures StubBytes(ins, src, dst, size) == Flatten(Stub(ins, src, dst, size, 0))
  {
  }

  /** One round of the copying loop: the stub still to come is this copy and then the stub of
      what is left. */
  lemma TakeStep(code: seq<byte>, need: int, src: word, dst: word, forward: word, backward: word)
    ensures First(code) <= code
    ensures var ins := First(code);
            var stub := Flatten(Stub(Take(code, need).ins, src, dst, forward, backward));
            if need <= 0 then Take(code, need).stop == Reached && stub == []
            else if StartsWithReturn(code) then Take(code, need).stop == AtReturn && stub == []
            else if ins == [] then Take(code, need).stop == OutOfCode && stub == []
            else
              var copy := Copy(ins, src, dst, forward, backward);
              && Take(code, need).stop == Take(code[|ins|..], need - |ins|).stop
              && stub == copy + Flatten(Stub(Take(code[|ins|..], need - |ins|).ins, Wrap(src + |ins|),
                                             Wrap(dst + |copy|), Wrap(forward - |ins|), Wrap(backward + |ins|)))
  {
    hide Copy, First, Wrap;
    var ins := First(code);
    if need > 0 && !StartsWithReturn(code) && ins != [] {
      var rest := Take(code[|ins|..], need - |ins|).ins;
      assert ([ins] + rest)[1..] == rest;
      var copy := Copy(ins, src, dst, forward, backward);
      var tail := Stub(rest, Wrap(src + |ins|), Wrap(dst + |copy|), Wrap(forward - |ins|), Wrap(backward + |ins|));
      assert ([copy] + tail)[1..] == tail;
    }
  }

  // ---------------------------------------------------------------- what the scan takes

  /** The scan takes whole instructions from the front of the code, none of them a near
      return, and stops at a return only if one is there. */
  lemma {:induction false} TakeIsInstructions(code: seq<byte>, need: int)
    ensures var Scan(ins, stop) := Take(code, need);
            && AllWhole(ins)
            && Flatten(ins) <= code
            && (forall i | 0 <= i < |ins| :: !StartsWithReturn(ins[i]))
            && (stop == AtReturn ==> StartsWithReturn(code[|Flatten(ins)|..]))
    decreases |code|
  {
    hide Decode, First, Whole, StartsWithReturn;
    NothingTaken();
    if need > 0 && !StartsWithReturn(code) && First(code) != [] {
      var ins := First(code);
      var tail := code[|ins|..];
      var rest := Take(tail, need - |ins|).ins;
      FirstIsWhole(code);
      TakeIsInstructions(tail, need - |ins|);
      assert code == ins + tail;
      assert Flatten([ins] + rest) == ins + Flatten(rest) by { assert ([ins] + rest)[1..] == rest; }
      assert code[|ins| + |Flatten(rest)|..] == tail[|Flatten(rest)|..];
    } else {
      assert code[0..] == code;
    }
  }

  lemma NothingTaken()
    ensures Flatten([]) == []
  {
  }

  lemma FirstIsWhole(code: seq<byte>)
    requires First(code) != []
    ensures Whole(First(code)) && (StartsWithReturn(First(code)) <==> StartsWithReturn(code))
  {
    hide Decode;
    CutIsWhole(code);
  }

  /** It succeeds exactly when it has enough bytes, and never takes an instruction too many. */
  lemma {:induction false} TakeIsShortest(code: seq<byte>, need: int)
    ensures var Scan(ins, stop) := Take(code, need);
            && (stop == Reached <==> |Flatten(ins)| >= need)
            && (ins != [] ==> |Flatten(ins[..|ins| - 1])| < need)
    decreases |code|
  {
    hide Decode, First;
    if need > 0 && !StartsWithReturn(code) && First(code) != [] {
      var ins := First(code);
      var rest := Take(code[|ins|..], need - |ins|).ins;
      TakeIsShortest(code[|ins|..], need - |ins|);
      assert Flatten([ins] + rest) == ins + Flatten(rest) by { assert ([ins] + rest)[1..] == rest; }
      if rest != [] {
        var body := rest[..|rest| - 1];
        assert ([ins] + rest)[..|rest|] == [ins] + body;
        assert Flatten([ins] + body) == ins + Flatten(body) by { assert ([ins] + body)[1..] == body; }
      } else {
        assert ([ins] + rest)[..|rest|] == rest;
      }
    }
  }

  /** The scan finds every site there is: instructions at the front of the code, none a return,
      just enough of them. */
  lemma {:induction false} TakeFinds(code: seq<byte>, need: int, ins: seq<seq<byte>>)
    requires AllWhole(ins) && Flatten(ins) <= code && |Flatten(ins)| >= need
    requires forall i | 0 <= i < |ins| :: !StartsWithReturn(ins[i])
    requires forall i | 0 <= i < |ins| :: Offset(ins, i) < need
    ensures Take(code, need) == Scan(ins, Reached)
    decreases |code|
  {
    hide Decode;
    if ins != [] {
      StartsAtZero(ins);
      assert Offset(ins, 0) < need;
      var tail := code[|ins[0]|..];
      assert Whole(ins[0]);
      WholeStandsAlone(ins[0], tail);
      assert code == ins[0] + tail;
      assert !StartsWithReturn(ins[0]);
      forall i | 0 <= i < |ins| - 1 ensures Offset(ins[1..], i) < need - |ins[0]| {
        OffsetCons(ins, i + 1);
      }
      TakeFinds(tail, need - |ins[0]|, ins[1..]);
      assert [ins[0]] + ins[1..] == ins;
    }
  }

  /** Asking again for exactly the bytes taken takes the same instructions. */
  lemma {:induction false} TakeAgain(code: seq<byte>, need: int)
    requires Take(code, need).stop == Reached
    ensures Take(code, |Flatten(Take(code, need).ins)|) == Take(code, need)
    decreases |code|
  {
    hide Decode, First;
    if need > 0 {
      var ins := First(code);
      var rest := Take(code[|ins|..], need - |ins|).ins;
      TakeAgain(code[|ins|..], need - |ins|);
      assert Flatten([ins] + rest) == ins + Flatten(rest) by { assert ([ins] + rest)[1..] == rest; }
    }
  }

  /** A scan that reached its goal cuts the site exactly where the decoder's own cut would. */
  lemma TakeIsCut(code: seq<byte>, need: int)
    requires Take(code, need).stop == Reached
    ensures var ins := Take(code, need).ins;
            Instructions(code, |Flatten(ins)|) == Some(ins)
  {
    hide Decode, Take, First, Whole, Instructions;
    var ins := Take(code, need).ins;
    TakeIsInstructions(code, need);
    CutRecoversBoundaries(ins, code[|Flatten(ins)|..]);
    assert Flatten(ins) + code[|Flatten(ins)|..] == code;
  }

  // ---------------------------------------------------------------- coverage and size

  /** The opcode of an instruction, counting 0F xx as 0x100 + xx. */
  function OpcodeOf(ins: seq<byte>): nat
    requires Whole(ins)
  {
    PrefixesThenBody(ins);
    var k := Decode(ins).value.opcodeAt;
    if ins[k] == 0x0F && k + 1 < |ins| then 0x100 + (ins[k + 1] as int) else ins[k]
  }

  /** The branches the copier knows are the relative operands of the opcode map, unprefixed and
      without LOOP and JECXZ. */
  lemma RecognisedBranches(ins: seq<byte>)
    requires Whole(ins)
    ensures FormOf(ins).Relative? <==>
              && Decode(ins).value.opcodeAt == 0
              && (IsRel8(OpcodeOf(ins)) || IsRel32(OpcodeOf(ins)))
              && !(0xE0 <= OpcodeOf(ins) <= 0xE3)
  {
    hide BodySize, Word4;
    PrefixesThenBody(ins);
    BranchLength(ins);
  }

  /** The processor's own limit on the length of an instruction. */
  const MAX_INSTRUCTION := 15

  predicate ShortInstructions(ins: seq<seq<byte>>)
  {
    forall i | 0 <= i < |ins| :: |ins[i]| <= MAX_INSTRUCTION
  }

  /** The stub is at least as long as the site and at most three times as long, and its last
      instruction, if it was not a short branch, takes no more room than before. */
  lemma {:induction false} StubGrowth(ins: seq<seq<byte>>, src: word, dst: word, forward: word, backward: word)
    requires AllWhole(ins) && ShortInstructions(ins)
    ensures var stub := Flatten(Stub(ins, src, dst, forward, backward));
            && |Flatten(ins)| <= |stub| <= 3 * |Flatten(ins)|
            && (ins != [] ==> |stub| <= 3 * |Flatten(ins[..|ins| - 1])| + MAX_INSTRUCTION)
  {
    hide Decode, Copy, Wrap;
    if ins != [] {
      var copy := Copy(ins[0], src, dst, forward, backward);
      CopyGrowth(ins[0], src, dst, forward, backward);
      var n := |ins[0]|;
      StubGrowth(ins[1..], Wrap(src + n), Wrap(dst + |copy|), Wrap(forward - n), Wrap(backward + n));
      var stub := Stub(ins, src, dst, forward, backward);
      assert stub[0] == copy;
      assert stub[1..] == Stub(ins[1..], Wrap(src + n), Wrap(dst + |copy|), Wrap(forward - n), Wrap(backward + n));
      if |ins| > 1 {
        assert ins[..|ins| - 1][1..] == ins[1..][..|ins| - 2];
      } else {
        assert ins[..|ins| - 1] == [] && ins[1..] == [];
      }
    }
  }

  /** What the stub of a site takes more room than the site, by the branches of the site alone. */
  function Growth(ins: seq<seq<byte>>, forward: word, backward: word): nat
  {
    if ins == [] then 0
    else Widening(ins[0], forward, backward) + Growth(ins[1..], Wrap(forward - |ins[0]|), Wrap(backward + |ins[0]|))
  }

  /** The exact length of a stub, which depends neither on where the site lies nor on where the
      stub goes. */
  lemma {:induction false} StubLength(ins: seq<seq<byte>>, src: word, dst: word, forward: word, backward: word)
    requires AllWhole(ins)
    ensures |Flatten(Stub(ins, src, dst, forward, backward))| == |Flatten(ins)| + Growth(ins, forward, backward)
  {
    hide Copy, Widening, Wrap, Whole;
    if ins != [] {
      var n := |ins[0]|;
      var copy := Copy(ins[0], src, dst, forward, backward);
      CopySize(ins[0], src, dst, forward, backward);
      StubLength(ins[1..], Wrap(src + n), Wrap(dst + |copy|), Wrap(forward - n), Wrap(backward + n));
      var stub := Stub(ins, src, dst, forward, backward);
      assert stub[0] == copy;
      assert stub[1..] == Stub(ins[1..], Wrap(src + n), Wrap(dst + |copy|), Wrap(forward - n), Wrap(backward + n));
    }
  }

  /** A stub grows by at most twice the site without its last instruction, and four bytes. */
  lemma {:induction false} GrowthIsBounded(ins: seq<seq<byte>>, forward: word, backward: word)
    ensures Growth(ins, forward, backward) <= if ins == [] then 0 else 2 * |Flatten(ins[..|ins| - 1])| + 4
  {
    hide Rewritten, Wrap;
    if ins != [] {
      var n := |ins[0]|;
      GrowthIsBounded(ins[1..], Wrap(forward - n), Wrap(backward + n));
      if |ins| > 1 {
        assert ins[..|ins| - 1][1..] == ins[1..][..|ins| - 2];
      }
    }
  }

  /** The stub of the shortest site of at least `need` bytes. */
  lemma StubIsSmall(code: seq<byte>, need: nat, src: word, dst: word, size: word)
    requires need > 0 && ShortInstructions(Take(code, need).ins)
    ensures |StubBytes(Take(code, need).ins, src, dst, size)| <= 3 * (need - 1) + MAX_INSTRUCTION
    ensures |Flatten(Take(code, need).ins)| <= need - 1 + MAX_INSTRUCTION
  {
    hide Decode, Copy, Wrap, Take, Stub, Whole;
    var ins := Take(code, need).ins;
    TakeIsInstructions(code, need);
    TakeIsShortest(code, need);
    StubGrowth(ins, src, dst, size, 0);
    if ins != [] {
      FlattenInit(ins);
    }
  }

  lemma {:induction false} FlattenInit(list: seq<seq<byte>>)
    requires list != []
    ensures Flatten(list) == Flatten(list[..|list| - 1]) + list[|list| - 1]
  {
    if |list| > 1 {
      FlattenInit(list[1..]);
      assert list[..|list| - 1][1..] == list[1..][..|list| - 2];
    } else {
      assert list[1..] == [] && list[..|list| - 1] == [];
    }
  }
}
