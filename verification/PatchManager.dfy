/** The patch manager: installing a hook with its trampoline record, and restoring it. */
module PatchManager {
  import opened Words
  import opened Lde
  import opened Relocation
  import opened Processor
  import opened HookSite
  import opened HookCode
  import opened NakedTrampoline
  import opened Growable
  import opened PatchState

  /** The function part of PATCH_MEMORY_DATA. `wantsTrampoline` says that the caller passed
      somewhere to store the trampoline address. */
  datatype FunctionPatch = FunctionPatch(
    hookOp: word, source: word, target: word, wantsTrampoline: bool,
    virtualAddress: bool, doNotDisassemble: bool, naked: bool, keepRaw: bool, execute: bool)

  /** Where JumpBackAddress lies in TRAMPOLINE_DATA, behind the two code buffers and two words. */
  const JUMP_BACK_FIELD := 0x88

  datatype PatchStatus = PatchOk | PatchTooSmall | PatchNoMemory | PatchAccessDenied | PatchFault

  /** What the operating system answers during one call: a heap block for the record, a larger
      block for the list, the change of page protection. And what the stack holds where the local
      buffer for the hook comes to lie. */
  datatype Environment = Environment(block: Option<word>, listGrant: bool, protect: bool, stack: seq<byte>)

  // ---------------------------------------------------------------- what an installation builds

  predicate Records(patch: FunctionPatch)
  {
    patch.naked || (patch.wantsTrampoline && !patch.doNotDisassemble)
  }

  function AddressOf(patch: FunctionPatch, baseAddress: word): word
  {
    if patch.virtualAddress then patch.source else Wrap(baseAddress + patch.source)
  }

  /** A call hook exactly as long as its site turns the copied instruction into a jump. */
  predicate TailJump(patch: FunctionPatch, size: nat)
  {
    GetSizeOfHookOpSize(patch.hookOp) == Some(size) && patch.hookOp == OP_CALL && !patch.keepRaw
  }

  /** The code of the trampoline of a record at `handle` for the site of `size` bytes at
      `address`. */
  function TrampolineBytes(mem: seq<byte>, patch: FunctionPatch, address: word, size: word, handle: word): seq<byte>
  {
    var scan := Take(Readable(mem, address), size);
    var jumpBackAt := Plus(handle, JUMP_BACK_FIELD);
    if patch.naked then
      NakedBytes(patch.hookOp, patch.target, patch.execute, scan, address, size, handle, jumpBackAt)
    else
      var stub := StubBytes(scan.ins, address, handle, size);
      if !TailJump(patch, size) then stub + Encode(JmpMem(jumpBackAt))
      else if stub == [] then stub else stub[0 := 0xE9]
  }

  /** The record: the original code is saved first, then the trampoline is written before it. */
  function RecordOf(mem: seq<byte>, patch: FunctionPatch, address: word, size: word, handle: word): TrampolineData
    requires address + size <= |mem| && size <= CODE_END - ORIGINAL_CODE
    requires |TrampolineBytes(mem, patch, address, size, handle)| <= CODE_END
  {
    var zero := seq(CODE_END, _ => 0);
    var saved := Splice(zero, ORIGINAL_CODE, mem[address..address + size]);
    TrampolineData(Splice(saved, 0, TrampolineBytes(mem, patch, address, size, handle)), size,
                   Plus(address, size), address)
  }

  /** The record remembers the site's bytes exactly when the trampoline keeps to its own part, or
      what it wrote beyond happens to be those very bytes. */
  lemma RecordKeepsOriginal(mem: seq<byte>, patch: FunctionPatch, address: word, size: word, handle: word)
    requires address + size <= |mem| && size <= CODE_END - ORIGINAL_CODE
    requires |TrampolineBytes(mem, patch, address, size, handle)| <= CODE_END
    ensures var trampoline := TrampolineBytes(mem, patch, address, size, handle);
            Original(RecordOf(mem, patch, address, size, handle)) == mem[address..address + size]
            <==> forall k | TRAMPOLINE_SIZE <= k < |trampoline| && k < TRAMPOLINE_SIZE + size ::
                   trampoline[k] == mem[address + k - TRAMPOLINE_SIZE]
  {
    hide TrampolineBytes;
    var trampoline := TrampolineBytes(mem, patch, address, size, handle);
    var original := Original(RecordOf(mem, patch, address, size, handle));
    forall i | 0 <= i < size
      ensures original[i] == if TRAMPOLINE_SIZE + i < |trampoline| then trampoline[TRAMPOLINE_SIZE + i]
                             else mem[address + i]
    {
      var zero := seq(CODE_END, _ => 0 as byte);
      var saved := Splice(zero, ORIGINAL_CODE, mem[address..address + size]);
      assert saved[ORIGINAL_CODE + i] == mem[address..address + size][i];
      assert original[i] == Splice(saved, 0, trampoline)[ORIGINAL_CODE + i];
    }
    if original == mem[address..address + size] {
      forall k | TRAMPOLINE_SIZE <= k < |trampoline| && k < TRAMPOLINE_SIZE + size
        ensures trampoline[k] == mem[address + k - TRAMPOLINE_SIZE]
      {
        assert original[k - TRAMPOLINE_SIZE] == mem[address..address + size][k - TRAMPOLINE_SIZE];
      }
    }
  }

  /** The record remembers the bytes of its site. */
  predicate KeepsOriginal(mem: seq<byte>, patch: FunctionPatch, address: word, size: word, handle: word)
  {
    && address + size <= |mem| && size <= CODE_END - ORIGINAL_CODE
    && |TrampolineBytes(mem, patch, address, size, handle)| <= CODE_END
    && Original(RecordOf(mem, patch, address, size, handle)) == mem[address..address + size]
  }

  // ---------------------------------------------------------------- the record in memory

  /** TRAMPOLINE_DATA byte for byte, up to and with JumpBackAddress: the trampoline and the saved code,
      TrampolineSize (which stays zero), OriginSize, JumpBackAddress. */
  function RecordImage(data: TrampolineData): (image: seq<byte>)
    requires WellFormed(data)
    ensures |image| == 2 * TRAMPOLINE_SIZE + 12
  {
    data.code + Bytes4(0) + Bytes4(data.originSize) + Bytes4(data.jumpBackAddress)
  }

  /** The cell that the jump at the end of a trampoline names: its last four bytes. */
  function JumpCell(trampoline: seq<byte>): word
    requires |trampoline| >= 4
  {
    Word4(trampoline[|trampoline| - 4..])
  }

  /** Whatever trampoline ends in a jump back, the cell it names lies in the record itself, and the
      record holds there the address behind the site. */
  lemma JumpBackReadsRecord(mem: seq<byte>, patch: FunctionPatch, address: word, size: word, handle: word)
    requires IsSite(mem, address, size) && address + size <= |mem| && size <= CODE_END - ORIGINAL_CODE
    requires |TrampolineBytes(mem, patch, address, size, handle)| <= CODE_END
    requires if patch.naked then !patch.execute else patch.hookOp != OP_CALL || size != 5 || patch.keepRaw
    ensures var trampoline := TrampolineBytes(mem, patch, address, size, handle);
            var image := RecordImage(RecordOf(mem, patch, address, size, handle));
            && |trampoline| >= 6 && image[..|trampoline|] == trampoline
            && trampoline[|trampoline| - 6..|trampoline| - 4] == [0xFF, 0x25]
            && exists k: nat ::
                 && 4 * k + 4 <= |image| && JumpCell(trampoline) == Plus(handle, 4 * k)
                 && Word4(image[4 * k..]) == Wrap(address + size)
  {
    hide Take, StubBytes, FrameBytes, Flatten, Readable, Plus, Bytes4, Word4, RecordOf, IsSite;
    JumpBackIsLast(mem, patch, address, size, handle);
    var trampoline := TrampolineBytes(mem, patch, address, size, handle);
    var data := RecordOf(mem, patch, address, size, handle);
    RecordFields(mem, patch, address, size, handle);
    var image := RecordImage(data);
    assert image[..|trampoline|] == data.code[..|trampoline|];
    var k := 34;
    assert image[4 * k..] == Bytes4(data.jumpBackAddress) + [];
    assert Bytes4(data.jumpBackAddress) + [] == Bytes4(data.jumpBackAddress);
    Word4Of(image[4 * k..], data.jumpBackAddress, []);
  }

  lemma RecordFields(mem: seq<byte>, patch: FunctionPatch, address: word, size: word, handle: word)
    requires address + size <= |mem| && size <= CODE_END - ORIGINAL_CODE
    requires |TrampolineBytes(mem, patch, address, size, handle)| <= CODE_END
    ensures var trampoline := TrampolineBytes(mem, patch, address, size, handle);
            var data := RecordOf(mem, patch, address, size, handle);
            && WellFormed(data) && data.code[..|trampoline|] == trampoline
            && data.jumpBackAddress == Wrap(address + size)
  {
    hide TrampolineBytes;
  }

  lemma JumpBackIsLast(mem: seq<byte>, patch: FunctionPatch, address: word, size: word, handle: word)
    requires IsSite(mem, address, size)
    requires if patch.naked then !patch.execute else patch.hookOp != OP_CALL || size != 5 || patch.keepRaw
    ensures var trampoline := TrampolineBytes(mem, patch, address, size, handle);
            && |trampoline| >= 6
            && trampoline[|trampoline| - 6..|trampoline| - 4] == [0xFF, 0x25]
            && JumpCell(trampoline) == Plus(handle, JUMP_BACK_FIELD)
  {
    hide Take, StubBytes, FrameBytes, Flatten, Readable, Plus, Bytes4, Word4;
    var trampoline := TrampolineBytes(mem, patch, address, size, handle);
    var cell := Plus(handle, JUMP_BACK_FIELD);
    assert trampoline[|trampoline| - 4..] == Bytes4(cell) + [];
    Word4Of(trampoline[|trampoline| - 4..], cell, []);
  }

  // ---------------------------------------------------------------- sizes

  /** The first `size` bytes at `address` are whole instructions, none of them a near return. */
  predicate IsSite(mem: seq<byte>, address: word, size: word)
  {
    var scan := Take(Readable(mem, address), size);
    scan.stop == Reached && |Flatten(scan.ins)| == size
  }

  /** The length of the stub of a site: that of the site, four bytes more for each two-byte jcc that
      leaves it, and three for each two-byte jmp. */
  function StubSize(mem: seq<byte>, address: word, size: word): nat
  {
    size + Growth(Take(Readable(mem, address), size).ins, size, 0)
  }

  /** The length of a trampoline, by its site and hook kind alone. */
  function TrampolineLength(mem: seq<byte>, patch: FunctionPatch, address: word, size: word): nat
  {
    StubSize(mem, address, size)
    + (if patch.naked then FrameSize(patch.hookOp) else 0)
    + (if (if patch.naked then patch.execute else TailJump(patch, size)) then 0 else 6)
  }

  /** How far it runs into the saved code. */
  function Overrun(mem: seq<byte>, patch: FunctionPatch, address: word, size: word): nat
  {
    var length := TrampolineLength(mem, patch, address, size);
    if length <= TRAMPOLINE_SIZE then 0 else length - TRAMPOLINE_SIZE
  }

  /** Installing at the site overruns neither the buffers of the caller nor the record. */
  predicate WithinBuffers(mem: seq<byte>, patch: FunctionPatch, address: word, size: nat)
  {
    && size <= CODE_END - ORIGINAL_CODE
    && (Records(patch) ==> TrampolineLength(mem, patch, address, size) <= CODE_END)
  }

  /** Wherever the heap puts the record, its trampoline has that length. */
  lemma TrampolineSizes(mem: seq<byte>, patch: FunctionPatch, address: word, size: word, handle: word)
    requires IsSite(mem, address, size)
    ensures |TrampolineBytes(mem, patch, address, size, handle)| == TrampolineLength(mem, patch, address, size)
    ensures var ins := Take(Readable(mem, address), size).ins;
            forall dst: word :: |StubBytes(ins, address, dst, size)| == StubSize(mem, address, size)
  {
    hide Take, StubBytes, Encode, FrameBytes, Flatten, Readable, Plus, Growth;
    var ins := Take(Readable(mem, address), size).ins;
    forall dst: word ensures |StubBytes(ins, address, dst, size)| == StubSize(mem, address, size) {
      StubSizes(mem, address, size, dst);
    }
    JumpBackSize(Plus(handle, JUMP_BACK_FIELD));
  }

  lemma StubSizes(mem: seq<byte>, address: word, size: word, dst: word)
    requires IsSite(mem, address, size)
    ensures |StubBytes(Take(Readable(mem, address), size).ins, address, dst, size)| == StubSize(mem, address, size)
  {
    hide Take, Flatten, Readable, Stub, Growth, Whole;
    var code := Readable(mem, address);
    TakeIsInstructions(code, size);
    StubLength(Take(code, size).ins, address, dst, size, 0);
  }

  /** For a site the search found, of instructions the processor accepts: nothing overruns a buffer;
      a plain trampoline keeps to its own part of the record; and a naked one does exactly if the
      site and the growth of its leaving short branches leave room for its frame and jump back. */
  lemma Fits(mem: seq<byte>, patch: FunctionPatch, address: word, size: word)
    requires GetSizeOfHookOpSize(patch.hookOp).Some?
    requires var need := GetSizeOfHookOpSize(patch.hookOp).value;
             var scan := Take(Readable(mem, address), need);
             && scan.stop == Reached && |Flatten(scan.ins)| == size && ShortInstructions(scan.ins)
    ensures IsSite(mem, address, size) && WithinBuffers(mem, patch, address, size)
    ensures 0 < size && address + size <= |mem|
    ensures !patch.naked ==> Overrun(mem, patch, address, size) == 0
    ensures patch.naked ==>
              var growth := Growth(Take(Readable(mem, address), size).ins, size, 0);
              && (Overrun(mem, patch, address, size) == 0
                  <==> size + growth <= TRAMPOLINE_SIZE - FrameSize(patch.hookOp) - if patch.execute then 0 else 6)
              && Overrun(mem, patch, address, size) <= size && Overrun(mem, patch, address, size) <= |FRAME_END|
  {
    hide Take, StubBytes, Flatten, Readable, Growth, Whole;
    var need := GetSizeOfHookOpSize(patch.hookOp).value;
    var code := Readable(mem, address);
    TakeAgain(code, need);
    TakeIsInstructions(code, need);
    TakeIsShortest(code, need);
    StubIsSmall(code, need, address, 0, size);
    StubSizes(mem, address, size, 0);
    GrowthIsBounded(Take(code, need).ins, size, 0);
    ReadableSize(mem, address);
  }

  /** The record keeps the original code, wherever the heap puts it, if and only if a naked
      trampoline does not run into it; or, where the frame comes last, if the bytes it writes there
      happen to be those of the site. */
  lemma NakedKeepsOriginal(mem: seq<byte>, patch: FunctionPatch, address: word, size: word)
    requires patch.naked && GetSizeOfHookOpSize(patch.hookOp).Some?
    requires var need := GetSizeOfHookOpSize(patch.hookOp).value;
             var scan := Take(Readable(mem, address), need);
             && scan.stop == Reached && |Flatten(scan.ins)| == size && ShortInstructions(scan.ins)
    ensures var over := Overrun(mem, patch, address, size);
            (forall handle: word :: KeepsOriginal(mem, patch, address, size, handle))
            <==> over == 0 || (patch.execute && EndsLikeFrame(mem, address, over))
  {
    hide Take, StubBytes, Flatten, Readable, Growth, KeepsOriginal, TrampolineLength, ShortInstructions, Overrun;
    var over := Overrun(mem, patch, address, size);
    Fits(mem, patch, address, size);
    forall handle: word
      ensures patch.execute ==>
                (KeepsOriginal(mem, patch, address, size, handle) <==> over == 0 || EndsLikeFrame(mem, address, over))
      ensures over == 0 ==> KeepsOriginal(mem, patch, address, size, handle)
    {
      OverwrittenBytes(mem, patch, address, size, handle);
    }
    if over > 0 && !patch.execute {
      var handle := HandleWithOtherByte(mem[address + over - 1]);
      OverwrittenBytes(mem, patch, address, size, handle);
    }
    assert patch.execute ==>
             (KeepsOriginal(mem, patch, address, size, 0) <==> over == 0 || EndsLikeFrame(mem, address, over));
  }

  /** The bytes over which the frame's end would have to fall to do no harm. */
  predicate EndsLikeFrame(mem: seq<byte>, address: word, over: nat)
  {
    && over <= |FRAME_END| && address + over <= |mem|
    && mem[address..address + over] == FRAME_END[|FRAME_END| - over..]
  }

  lemma HandleWithOtherByte(b: byte) returns (handle: word)
    ensures Plus(handle, JUMP_BACK_FIELD) / 0x100_0000 != b
  {
    handle := if b == 0 then 0x100_0000 else 0;
  }

  lemma OverwrittenBytes(mem: seq<byte>, patch: FunctionPatch, address: word, size: word, handle: word)
    requires patch.naked && IsSite(mem, address, size) && address + size <= |mem| && size <= CODE_END - ORIGINAL_CODE
    requires TrampolineLength(mem, patch, address, size) <= CODE_END
    requires Overrun(mem, patch, address, size) <= size && Overrun(mem, patch, address, size) <= |FRAME_END|
    ensures var over := Overrun(mem, patch, address, size);
            && (over == 0 ==> KeepsOriginal(mem, patch, address, size, handle))
            && (patch.execute ==>
                  (KeepsOriginal(mem, patch, address, size, handle) <==> EndsLikeFrame(mem, address, over)))
            && (!patch.execute && over > 0 && KeepsOriginal(mem, patch, address, size, handle) ==>
                  mem[address + over - 1] == Plus(handle, JUMP_BACK_FIELD) / 0x100_0000)
  {
    hide Take, StubBytes, Flatten, Readable, Growth, TrampolineLength, TrampolineBytes, RecordOf, Plus, IsSite;
    var over := Overrun(mem, patch, address, size);
    var trampoline := TrampolineBytes(mem, patch, address, size, handle);
    TrampolineSizes(mem, patch, address, size, handle);
    RecordKeepsOriginal(mem, patch, address, size, handle);
    TrampolineEnd(mem, patch, address, size, handle);
    if patch.execute && over > 0 {
      forall k | TRAMPOLINE_SIZE <= k < |trampoline|
        ensures trampoline[k] == FRAME_END[|FRAME_END| - over..][k - TRAMPOLINE_SIZE]
      {
        assert trampoline[k] == trampoline[|trampoline| - |FRAME_END|..][k - (|trampoline| - |FRAME_END|)];
      }
      SameFront(trampoline, mem, address, over);
    }
  }

  lemma TrampolineEnd(mem: seq<byte>, patch: FunctionPatch, address: word, size: word, handle: word)
    requires patch.naked && IsSite(mem, address, size)
    ensures var trampoline := TrampolineBytes(mem, patch, address, size, handle);
            && |trampoline| >= |FRAME_END|
            && (patch.execute ==> trampoline[|trampoline| - |FRAME_END|..] == FRAME_END)
            && (!patch.execute ==> trampoline[|trampoline| - 1] == Plus(handle, JUMP_BACK_FIELD) / 0x100_0000)
  {
    hide Take, StubBytes, Flatten, Readable, Plus;
  }

  /** What lies behind the trampoline's own part, compared with the site byte by byte. */
  lemma SameFront(trampoline: seq<byte>, mem: seq<byte>, address: word, over: nat)
    requires 0 < over <= |FRAME_END| && |trampoline| == TRAMPOLINE_SIZE + over && address + over <= |mem|
    requires forall k | TRAMPOLINE_SIZE <= k < |trampoline| ::
               trampoline[k] == FRAME_END[|FRAME_END| - over..][k - TRAMPOLINE_SIZE]
    ensures EndsLikeFrame(mem, address, over)
            <==> forall k | TRAMPOLINE_SIZE <= k < |trampoline| :: trampoline[k] == mem[address + k - TRAMPOLINE_SIZE]
  {
    var here, there := mem[address..address + over], FRAME_END[|FRAME_END| - over..];
    if forall k | TRAMPOLINE_SIZE <= k < |trampoline| :: trampoline[k] == mem[address + k - TRAMPOLINE_SIZE] {
      forall i | 0 <= i < over ensures here[i] == there[i] {
        assert trampoline[TRAMPOLINE_SIZE + i] == mem[address + i];
      }
    }
    if EndsLikeFrame(mem, address, over) {
      forall k | TRAMPOLINE_SIZE <= k < |trampoline| ensures trampoline[k] == mem[address + k - TRAMPOLINE_SIZE] {
        assert here[k - TRAMPOLINE_SIZE] == trampoline[k];
      }
    }
  }

  lemma ReadableSize(mem: seq<byte>, address: word)
    ensures |Readable(mem, address)| > 0 ==> address + |Readable(mem, address)| == |mem|
    ensures |Readable(mem, address)| > 0 ==> Readable(mem, address) == mem[address..]
  {
  }

  // ---------------------------------------------------------------- building

  /** Fills in the record, as HandleFunctionPatch does between allocating and listing it. */
  method BuildRecord(mem: seq<byte>, patch: FunctionPatch, address: word, size: word, handle: word)
    returns (data: TrampolineData)
    requires IsSite(mem, address, size) && 0 < size <= CODE_END - ORIGINAL_CODE && address + size <= |mem|
    requires TrampolineLength(mem, patch, address, size) <= CODE_END
    ensures |TrampolineBytes(mem, patch, address, size, handle)| <= CODE_END
    ensures data == RecordOf(mem, patch, address, size, handle)
  {
    hide Take, StubBytes, Encode, FrameBytes, Flatten, Splice, Plus, NakedBytes, Readable, Growth;
    TrampolineSizes(mem, patch, address, size, handle);
    var block := new byte[CODE_END](_ => 0);
    ghost var zero := seq(CODE_END, _ => 0 as byte);
    assert block[..] == zero;
    Store(block, ORIGINAL_CODE, mem[address..address + size]);
    ghost var saved := block[..];
    var code := Readable(mem, address);
    var jumpBackAt := Plus(handle, JUMP_BACK_FIELD);
    JumpBackSize(jumpBackAt);
    if !patch.naked {
      ghost var stub := StubBytes(Take(code, size).ins, address, handle, size);
      var stop, end := CopyTrampolineStub(block, 0, handle, code, address, size);
      if TailJump(patch, size) {
        block[0] := 0xE9;
        FirstByte(saved, stub, 0xE9);
        assert block[..] == Splice(saved, 0, stub)[0 := 0xE9];
      } else {
        SpliceTwice(saved, 0, stub, Encode(JmpMem(jumpBackAt)));
        end := GenerateJumpBack(block, end, jumpBackAt);
      }
    } else {
      var stop, end := GenerateNakedTrampoline(block, handle, code, address, size, patch.hookOp, patch.target,
                                               patch.execute, jumpBackAt);
    }
    data := TrampolineData(block[..], size, Plus(address, size), address);
  }

  lemma FirstByte(saved: seq<byte>, stub: seq<byte>, b: byte)
    requires 0 < |stub| <= |saved|
    ensures Splice(saved, 0, stub)[0 := b] == Splice(saved, 0, stub[0 := b])
  {
  }

  /** The bytes that go over the site: the hook, and behind it filler. Above seven bytes the
      source's filler routine has no case, and the rest is whatever the stack held there. */
  ghost predicate IsHook(hook: seq<byte>, hookOp: word, sourceIp: word, target: word, size: nat, stack: seq<byte>)
  {
    && GetSizeOfHookOpSize(hookOp).Some?
    && var need := GetSizeOfHookOpSize(hookOp).value;
       && need <= size <= |stack|
       && hook == HookBytes(hookOp, sourceIp, target)
                  + if size - need <= 7 then NopBytes(size - need) else stack[need..size]
  }

  method BuildHook(hookOp: word, sourceIp: word, target: word, hookOpSize: nat, size: nat, stack: seq<byte>)
    returns (hook: seq<byte>)
    requires GetSizeOfHookOpSize(hookOp) == Some(hookOpSize) && hookOpSize <= size <= TRAMPOLINE_SIZE == |stack|
    ensures |hook| == size && IsHook(hook, hookOp, sourceIp, target, size, stack)
  {
    hide HookBytes, NopBytes, Splice;
    var localHookBuffer := new byte[TRAMPOLINE_SIZE](i requires 0 <= i < |stack| => stack[i]);
    assert localHookBuffer[..] == stack;
    var ok := GenerateHookCode(localHookBuffer, sourceIp, target, hookOp, hookOpSize);
    PatchNop(localHookBuffer, hookOpSize, size - hookOpSize);
    hook := localHookBuffer[..size];
    if size - hookOpSize <= 7 {
      TwoPieces(stack, HookBytes(hookOp, sourceIp, target), NopBytes(size - hookOpSize));
    } else {
      OnePiece(stack, HookBytes(hookOp, sourceIp, target), size);
    }
  }

  lemma TwoPieces(s: seq<byte>, a: seq<byte>, b: seq<byte>)
    requires |a| + |b| <= |s|
    ensures Splice(Splice(s, 0, a), |a|, b)[..|a| + |b|] == a + b
  {
    SpliceTwice(s, 0, a, b);
  }

  lemma OnePiece(s: seq<byte>, a: seq<byte>, size: nat)
    requires |a| <= size <= |s|
    ensures Splice(s, 0, a)[..size] == a + s[|a|..size]
  {
  }

  // ---------------------------------------------------------------- the manager

  /** What HandleFunctionPatch answers and does, case by case. `accepts` says that the list of
      trampolines can take one more. */
  ghost predicate Answers(mem: seq<byte>, patch: FunctionPatch, baseAddress: word, env: Environment, accepts: bool,
                          hops: nat, status: PatchStatus, trampoline: Option<word>, event: Event)
    requires GetSizeOfHookOpSize(patch.hookOp).Some? ==>
               Settles(mem, AddressOf(patch, baseAddress), GetSizeOfHookOpSize(patch.hookOp).value, hops)
  {
    if patch.target == 0 || patch.source == INVALID_RVA then
      status == PatchOk && trampoline == None && event == Nothing
    else if GetSizeOfHookOpSize(patch.hookOp).None? then
      status == PatchTooSmall && trampoline == None && event == Nothing
    else match SiteOf(mem, AddressOf(patch, baseAddress), GetSizeOfHookOpSize(patch.hookOp).value, hops)
      case TooSmall => status == PatchTooSmall && trampoline == None && event == Nothing
      case Fault => status == PatchFault && trampoline == None && event == Nothing
      case Found(site, size) => AnswersAt(mem, patch, site, size, env, accepts, status, trampoline, event)
  }

  /** The same, for a site that was found. */
  ghost predicate AnswersAt(mem: seq<byte>, patch: FunctionPatch, site: word, size: nat, env: Environment,
                            accepts: bool, status: PatchStatus, trampoline: Option<word>, event: Event)
  {
    if Records(patch) && env.block.None? then
      status == PatchNoMemory && trampoline == None && event == Nothing
    else
      && trampoline == (if Records(patch) && patch.wantsTrampoline then env.block else None)
      && if !env.protect then
           && status == PatchAccessDenied
           && if Records(patch) then event == Refused(env.block.value, accepts) else event == Nothing
         else
           && status == PatchOk && event.Patched? && event.site == site
           && IsHook(event.hook, patch.hookOp, site, if patch.naked then env.block.value else patch.target, size,
                     env.stack)
           && if Records(patch) then
                && event.record.Some? && event.record.value.0 == env.block.value && event.listed == accepts
                && IsRecord(mem, patch, site, size, event.record.value.0, event.record.value.1)
              else event.record == None
  }

  ghost predicate IsRecord(mem: seq<byte>, patch: FunctionPatch, site: word, size: nat, handle: word,
                           data: TrampolineData)
  {
    && site + size <= |mem| && size <= CODE_END - ORIGINAL_CODE
    && |TrampolineBytes(mem, patch, site, size, handle)| <= CODE_END
    && data == RecordOf(mem, patch, site, size, handle)
  }

  /** A found site is one for the copier, and holds the hook. */
  lemma FoundIsSite(mem: seq<byte>, hookOp: word, address: word, hops: nat)
    requires GetSizeOfHookOpSize(hookOp).Some?
    requires var need := GetSizeOfHookOpSize(hookOp).value;
             Settles(mem, address, need, hops) && SiteOf(mem, address, need, hops).Found?
    ensures var need := GetSizeOfHookOpSize(hookOp).value;
            var Found(site, size) := SiteOf(mem, address, need, hops);
            need <= size && (size < WORD_LIMIT ==> IsSite(mem, site, size))
  {
    hide Take, Settles, HopAt, ChainEnd, HasMisplaced, Readable, Flatten;
    var need := GetSizeOfHookOpSize(hookOp).value;
    var code := Readable(mem, ChainEnd(mem, address, need, hops));
    TakeIsShortest(code, need);
    TakeAgain(code, need);
  }

  /** The processor accepts instructions of at most 15 bytes; a found site of such instructions keeps
      within all buffers. */
  lemma FoundIsWithinBuffers(mem: seq<byte>, patch: FunctionPatch, address: word, hops: nat)
    requires GetSizeOfHookOpSize(patch.hookOp).Some?
    requires var need := GetSizeOfHookOpSize(patch.hookOp).value;
             && Settles(mem, address, need, hops) && SiteOf(mem, address, need, hops).Found?
             && ShortInstructions(Take(Readable(mem, ChainEnd(mem, address, need, hops)), need).ins)
    ensures var need := GetSizeOfHookOpSize(patch.hookOp).value;
            var Found(site, size) := SiteOf(mem, address, need, hops);
            WithinBuffers(mem, patch, site, size)
  {
    hide Take, Settles, HopAt, ChainEnd, HasMisplaced, Readable, Flatten, ShortInstructions, WithinBuffers;
    var need := GetSizeOfHookOpSize(patch.hookOp).value;
    var site := ChainEnd(mem, address, need, hops);
    TakeIsShortest(Readable(mem, site), need);
    StubIsSmall(Readable(mem, site), need, 0, 0, 0);
    Fits(mem, patch, site, |Flatten(Take(Readable(mem, site), need).ins)|);
  }

  /** The record made of a site is sound. */
  lemma SiteIsSound(mem: seq<byte>, patch: FunctionPatch, site: word, size: word, handle: word)
    requires |mem| <= WORD_LIMIT && IsSite(mem, site, size) && 0 < size
    requires size <= CODE_END - ORIGINAL_CODE
    ensures site + size <= |mem|
    ensures TrampolineLength(mem, patch, site, size) <= CODE_END ==>
              && |TrampolineBytes(mem, patch, site, size, handle)| <= CODE_END
              && Sound(RecordOf(mem, patch, site, size, handle), |mem|)
  {
    hide Take, Readable, TrampolineBytes, Splice, StubBytes, Flatten, TrampolineLength;
    TrampolineSizes(mem, patch, site, size, handle);
    TakeIsInstructions(Readable(mem, site), size);
    ReadableSize(mem, site);
  }

  class MemoryPatchManager {
    /** The code memory of the process, by address. */
    const memory: array<byte>
    const trampolineList: GrowableArray<word>
    /** The blocks of the executable heap, by address. */
    var executableHeap: map<word, TrampolineData>

    ghost predicate Valid()
      reads this, trampolineList
    {
      trampolineList.Valid() && memory.Length <= WORD_LIMIT
    }

    ghost function View(): State
      requires Valid()
      reads this, memory, trampolineList, trampolineList.data
    {
      State(memory[..], trampolineList.Contents(), executableHeap)
    }

    constructor (memory: array<byte>)
      requires memory.Length <= WORD_LIMIT
      ensures Valid() && this.memory == memory && fresh(trampolineList)
      ensures View() == State(memory[..], [], map[])
    {
      this.memory := memory;
      trampolineList := new GrowableArray<word>(4);
      executableHeap := map[];
    }

    /** Keeps the record in its heap block and lists it; trampolineList.Add may fail, and its
        answer is ignored. */
    method KeepRecord(handle: word, data: TrampolineData, grant: bool) returns (listed: bool)
      requires Valid()
      modifies this, trampolineList, trampolineList.data
      ensures Valid() && (trampolineList.data == old(trampolineList.data) || fresh(trampolineList.data))
      ensures View() == WithRecord(old(View()), Some((handle, data)), listed)
      ensures listed == old(trampolineList.Accepts(grant))
    {
      executableHeap := executableHeap[handle := data];
      var status := trampolineList.Add(handle, grant);
      listed := status == Success;
    }

    /** FreeTrampolineData, which does not touch the list. */
    method FreeRecord(handle: word)
      requires Valid()
      modifies this
      ensures View() == old(View()).(heap := old(View()).heap - {handle})
    {
      executableHeap := executableHeap - {handle};
    }

    /** HandleFunctionPatch between finding the site and unprotecting it: makes the bytes that go
        over the site and, when the patch calls for one, the trampoline record, and lists it. */
    method Prepare(patch: FunctionPatch, site: word, hookOpSize: nat, size: word, env: Environment)
      returns (hook: seq<byte>, ghost record: Option<(word, TrampolineData)>, trampoline: Option<word>, listed: bool)
      requires Valid() && GetSizeOfHookOpSize(patch.hookOp) == Some(hookOpSize) && hookOpSize <= size
      requires IsSite(memory[..], site, size) && WithinBuffers(memory[..], patch, site, size)
      requires |env.stack| == TRAMPOLINE_SIZE
      requires Records(patch) ==> env.block.Some?
      modifies this, trampolineList, trampolineList.data
      ensures Valid() && View() == WithRecord(old(View()), record, listed) && site + size <= memory.Length
      ensures IsHook(hook, patch.hookOp, site, if patch.naked then env.block.value else patch.target, size,
                     env.stack)
      ensures |hook| == size
      ensures Records(patch) ==> listed == old(trampolineList.Accepts(env.listGrant))
      ensures trampoline == if Records(patch) && patch.wantsTrampoline then env.block else None
      ensures if Records(patch) then
                && record.Some? && record.value.0 == env.block.value && Sound(record.value.1, memory.Length)
                && IsRecord(old(memory[..]), patch, site, size, record.value.0, record.value.1)
              else record == None
    {
      hide IsSite, RecordOf, TrampolineBytes, IsHook, TrampolineLength, Sound;
      var mem := memory[..];
      SiteIsSound(mem, patch, site, size, if env.block.Some? then env.block.value else 0);
      hook, record, trampoline, listed := [], None, None, false;
      if !patch.naked {
        hook := BuildHook(patch.hookOp, site, patch.target, hookOpSize, size, env.stack);
      }
      if Records(patch) {
        var handle := env.block.value;
        var data := BuildRecord(mem, patch, site, size, handle);
        record := Some((handle, data));
        if patch.naked {
          hook := BuildHook(patch.hookOp, site, handle, hookOpSize, size, env.stack);
        }
        if patch.wantsTrampoline {
          trampoline := Some(handle);
        }
        listed := KeepRecord(handle, data, env.listGrant);
      }
    }

    /** HandleFunctionPatch from the point where it has its site. */
    method PatchSite(patch: FunctionPatch, site: word, hookOpSize: nat, size: word, env: Environment)
      returns (status: PatchStatus, trampoline: Option<word>, ghost event: Event)
      requires Valid() && GetSizeOfHookOpSize(patch.hookOp) == Some(hookOpSize) && hookOpSize <= size
      requires IsSite(memory[..], site, size) && WithinBuffers(memory[..], patch, site, size)
      requires |env.stack| == TRAMPOLINE_SIZE
      requires env.block.Some? ==> env.block.value !in executableHeap
      modifies this, memory, trampolineList, trampolineList.data
      ensures Valid()
      ensures Possible(old(View()), event) && View() == Apply(old(View()), event)
      ensures AnswersAt(old(memory[..]), patch, site, size, env, old(trampolineList.Accepts(env.listGrant)),
                        status, trampoline, event)
    {
      hide IsSite, WithinBuffers, IsRecord, IsHook, Splice, Sound;
      ghost var before := View();
      event := Nothing;
      if Records(patch) && env.block.None? {
        return PatchNoMemory, None, event;
      }
      ghost var record;
      var hook, listed;
      hook, record, trampoline, listed := Prepare(patch, site, hookOpSize, size, env);
      if !env.protect {
        if Records(patch) {
          FreeRecord(env.block.value);
          event := Refused(env.block.value, listed);
          assert View().heap == before.heap;
        }
        return PatchAccessDenied, trampoline, event;
      }
      event := Patched(site, hook, record, listed);
      Store(memory, site, hook);
      return PatchOk, trampoline, event;
    }

    /** HandleFunctionPatch. The event it returns says what it did to the manager's state. */
    method HandleFunctionPatch(patch: FunctionPatch, baseAddress: word, env: Environment, ghost hops: nat)
      returns (status: PatchStatus, trampoline: Option<word>, ghost event: Event)
      requires Valid()
      requires GetSizeOfHookOpSize(patch.hookOp).Some? ==>
                 var need := GetSizeOfHookOpSize(patch.hookOp).value;
                 var address := AddressOf(patch, baseAddress);
                 && Settles(memory[..], address, need, hops)
                 && match SiteOf(memory[..], address, need, hops)
                    case Found(site, size) => WithinBuffers(memory[..], patch, site, size)
                    case _ => true
      requires |env.stack| == TRAMPOLINE_SIZE
      requires env.block.Some? ==> env.block.value !in executableHeap
      modifies this, memory, trampolineList, trampolineList.data
      ensures Valid()
      ensures Possible(old(View()), event) && View() == Apply(old(View()), event)
      ensures Answers(old(memory[..]), patch, baseAddress, env, old(trampolineList.Accepts(env.listGrant)), hops,
                      status, trampoline, event)
    {
      hide Take, Settles, HopAt, ChainEnd, HasMisplaced, Readable, AnswersAt, Flatten;
      event := Nothing;
      trampoline := None;
      if patch.target == 0 || patch.source == INVALID_RVA {
        return PatchOk, None, event;
      }
      var address := AddressOf(patch, baseAddress);
      var hookOpSize := GetSizeOfHookOpSize(patch.hookOp);
      if hookOpSize.None? {
        return PatchTooSmall, None, event;
      }
      var found := GetHookAddressAndSize(memory[..], address, hookOpSize.value, hops);
      if found.TooSmall? {
        return PatchTooSmall, None, event;
      } else if found.Fault? {
        return PatchFault, None, event;
      }
      FoundIsSite(memory[..], patch.hookOp, address, hops);
      status, trampoline, event := PatchSite(patch, found.address, hookOpSize.value, found.size, env);
    }

    /** RestoreMemory of a record in the heap. Protection cannot be changed outside memory. A record
        that was never listed stays in the heap; the bytes are put back all the same. */
    method RestoreMemory(handle: word, protect: bool) returns (status: PatchStatus, ghost event: Event)
      requires Valid() && handle in executableHeap && WellFormed(executableHeap[handle])
      modifies this, memory, trampolineList, trampolineList.data
      ensures Valid()
      ensures var data := old(executableHeap[handle]);
              status == if || data.originSize == 0 || data.source == 0xFFFF_FFFF
                           || (protect && data.source + data.originSize <= memory.Length)
                        then PatchOk else PatchAccessDenied
      ensures event == if status == PatchOk then Restored(handle) else Nothing
      ensures Possible(old(View()), event) && View() == Apply(old(View()), event)
    {
      hide Splice;
      event := Nothing;
      var data := executableHeap[handle];
      if data.originSize != 0 && data.source != INVALID_RVA {
        if !protect || data.source + data.originSize > memory.Length {
          return PatchAccessDenied, event;
        }
        Store(memory, data.source, Original(data));
      }
      event := Restored(handle);
      var index := trampolineList.IndexOf(handle);
      if index.Some? {
        FirstOccurrence(trampolineList.Contents(), handle, index.value);
        var _ := trampolineList.Remove(index.value);
        executableHeap := executableHeap - {handle};
      }
      return PatchOk, event;
    }
  }

  lemma {:induction false} FirstOccurrence(list: seq<word>, x: word, index: nat)
    requires index < |list| && list[index] == x && x !in list[..index]
    ensures Without(list, x) == list[..index] + list[index + 1..]
  {
    if index > 0 {
      assert list[0] == list[..index][0];
      FirstOccurrence(list[1..], x, index - 1);
    }
  }
}
