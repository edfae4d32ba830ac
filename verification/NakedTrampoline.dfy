/** The naked trampoline: code that saves every register in a context, hands the context to a
    callback and reloads every register from it. */
module NakedTrampoline {
  import opened Words
  import opened Relocation
  import opened Processor
  import opened HookCode

  // ---------------------------------------------------------------- the emitted code

  /** The registers in the order they are pushed, the saved stack pointer first. Below the
      return address they make up TRAMPOLINE_NAKED_CONTEXT, read upwards from the flags. */
  const SAVED: seq<Reg> := [ESP, EAX, ECX, EDX, EBX, EBP, ESI, EDI, EFLAGS]

  /** The order they are popped in; the stack pointer comes last and takes the stack away. */
  const RESTORED: seq<Reg> := [EFLAGS, EDI, ESI, EBP, EBX, EDX, ECX, EAX]

  function Pushes(regs: seq<Reg>): seq<Op>
  {
    seq(|regs|, i requires 0 <= i < |regs| => Push(regs[i]))
  }

  function Pops(regs: seq<Reg>): seq<Op>
  {
    seq(|regs|, i requires 0 <= i < |regs| => Pop(regs[i]))
  }

  /** A call hook has already pushed a word where the return address goes; for the other hooks a
      register is pushed to make room. */
  function Room(hookOp: word): seq<Reg>
  {
    if hookOp != OP_CALL then [EAX] else []
  }

  function CallBack(returnAddress: word, target: word): seq<Op>
  {
    [MovImm(EAX, returnAddress), SaveEax(0x24), MovImm(EAX, target), EcxFromEsp, CallReg(EAX)]
  }

  function Entry(hookOp: word, returnAddress: word, target: word): seq<Op>
  {
    Pushes(Room(hookOp) + SAVED) + CallBack(returnAddress, target)
  }

  function Exit(): seq<Op>
  {
    Pops(RESTORED) + [Pop(ESP), Ret]
  }

  function Frame(hookOp: word, returnAddress: word, target: word): seq<Op>
  {
    Entry(hookOp, returnAddress, target) + Exit()
  }

  // ---------------------------------------------------------------- pushing and popping lists

  lemma PlusPlus(w: word, a: int, b: int)
    ensures Plus(Plus(w, a), b) == Plus(w, a + b)
  {
    WrapSum(w + a, b);
  }

  lemma PlusApart(w: word, a: int, b: int)
    requires a != b && -WORD_LIMIT < a - b < WORD_LIMIT
    ensures Plus(w, a) != Plus(w, b)
  {
  }

  function Advance(m: Machine, op: Op): Machine
  {
    m.(eip := Wrap(m.eip + |Encode(op)|))
  }

  lemma {:induction false} ExecAppend(a: seq<Op>, b: seq<Op>, m: Machine)
    ensures ExecAll(a + b, m) == ExecAll(b, ExecAll(a, m))
  {
    hide Exec, Encode, Wrap;
    if a == [] {
      assert a + b == b;
    } else {
      assert (a + b)[0] == a[0] && (a + b)[1..] == a[1..] + b;
      ExecAppend(a[1..], b, Exec(a[0], m.(eip := Wrap(m.eip + |Encode(a[0])|))));
    }
  }

  /** The cell the `i`-th push below `sp` writes. */
  function Cell(sp: word, i: nat): word
  {
    Plus(sp, -4 * (i + 1))
  }

  ghost predicate IsCell(sp: word, n: nat, a: word)
  {
    exists i: nat | i < n :: a == Cell(sp, i)
  }

  lemma CellsApart(sp: word, n: nat)
    requires n < 0x100
    ensures forall i: nat, j: nat | i < j < n :: Cell(sp, i) != Cell(sp, j)
    ensures forall i: nat | i < n :: Cell(Plus(sp, -4), i) == Cell(sp, i + 1)
  {
    hide Plus;
    forall i: nat, j: nat | i < j < n ensures Cell(sp, i) != Cell(sp, j) {
      PlusApart(sp, -4 * (i + 1), -4 * (j + 1));
    }
    forall i: nat | i < n ensures Cell(Plus(sp, -4), i) == Cell(sp, i + 1) {
      PlusPlus(sp, -4, -4 * (i + 1));
    }
  }

  /** What the `i`-th of a list of pushes writes. */
  function Pushed(regs: seq<Reg>, m: Machine, i: nat): word
    requires i < |regs|
  {
    if regs[i] == ESP then Plus(m.regs[ESP], -4 * i) else m.regs[regs[i]]
  }

  /** What a list of pushes leaves: each register in its cell, counted down from the old top of
      the stack; the stack pointer as it was when its turn came; nothing else touched. */
  lemma {:induction false} PushesStore(regs: seq<Reg>, m: Machine)
    requires |regs| < 0x100
    ensures var m' := ExecAll(Pushes(regs), m);
            var sp := m.regs[ESP];
            && m'.eip == Wrap(m.eip + |regs|)
            && m'.regs == m.regs[ESP := Plus(sp, -4 * |regs|)]
            && (forall i: nat | i < |regs| :: Load(m'.memory, Cell(sp, i)) == Pushed(regs, m, i))
            && (forall a: word | !IsCell(sp, |regs|, a) :: Load(m'.memory, a) == Load(m.memory, a))
  {
    hide Wrap, Encode, Plus, Cell;
    var sp := m.regs[ESP];
    var m' := ExecAll(Pushes(regs), m);
    if regs == [] {
      PlusNothing(sp);
      WrapWord(m.eip);
      assert m.regs[ESP := sp] == m.regs;
    } else {
      var rest := regs[1..];
      var m1 := Exec(Push(regs[0]), Advance(m, Push(regs[0])));
      PushesStore(rest, m1);
      PushIsOneByte(regs[0]);
      WrapSum(m.eip + 1, |rest|);
      assert Pushes(regs)[1..] == Pushes(rest);
      assert m' == ExecAll(Pushes(rest), m1);
      CellsApart(sp, |regs|);
      assert m1.regs[ESP] == Plus(sp, -4) == Cell(sp, 0) by { FirstCell(sp); }
      PlusPlus(sp, -4, -4 * |rest|);
      assert m.regs[ESP := Plus(sp, -4)][ESP := Plus(sp, -4 * |regs|)] == m.regs[ESP := Plus(sp, -4 * |regs|)];
      forall i: nat | i < |regs| ensures Load(m'.memory, Cell(sp, i)) == Pushed(regs, m, i) {
        if i == 0 {
          PlusNothing(sp);
          assert !IsCell(m1.regs[ESP], |rest|, Cell(sp, 0));
        } else {
          assert Cell(sp, i) == Cell(m1.regs[ESP], i - 1);
          assert rest[i - 1] == regs[i];
          PlusPlus(sp, -4, -4 * (i - 1));
        }
      }
      forall a: word | !IsCell(sp, |regs|, a) ensures Load(m'.memory, a) == Load(m.memory, a) {
        assert a != Cell(sp, 0);
        assert !IsCell(m1.regs[ESP], |rest|, a);
      }
    }
  }

  lemma PushIsOneByte(r: Reg)
    ensures |Encode(Push(r))| == 1
  {
  }

  lemma PlusNothing(w: word)
    ensures Plus(w, 0) == w
  {
  }

  lemma FirstCell(sp: word)
    ensures Cell(sp, 0) == Plus(sp, -4)
  {
  }

  /** What a list of pops of distinct registers other than the stack pointer leaves. */
  lemma {:induction false} PopsLoad(regs: seq<Reg>, m: Machine)
    requires ESP !in regs && forall i, j | 0 <= i < j < |regs| :: regs[i] != regs[j]
    ensures var m' := ExecAll(Pops(regs), m);
            && m'.memory == m.memory && m'.regs[ESP] == Plus(m.regs[ESP], 4 * |regs|)
            && (forall i: nat | i < |regs| :: m'.regs[regs[i]] == Load(m.memory, Field(m.regs[ESP], i)))
            && (forall r: Reg | r !in regs && r != ESP :: m'.regs[r] == m.regs[r])
  {
    hide Wrap, Encode, Plus, Load, Field;
    var sp := m.regs[ESP];
    PlusNothing(sp);
    FieldStep(sp, 0);
    if regs != [] {
      var rest := regs[1..];
      var m1 := Exec(Pop(regs[0]), Advance(m, Pop(regs[0])));
      assert regs[0] != ESP;
      PopsLoad(rest, m1);
      assert Pops(regs)[1..] == Pops(rest);
      var m' := ExecAll(Pops(rest), m1);
      assert m' == ExecAll(Pops(regs), m);
      PlusPlus(sp, 4, 4 * |rest|);
      forall i: nat | i < |regs| ensures m'.regs[regs[i]] == Load(m.memory, Field(sp, i)) {
        if i == 0 {
          assert regs[0] !in rest;
        } else {
          assert rest[i - 1] == regs[i];
          FieldStep(sp, i - 1);
        }
      }
    }
  }

  lemma FieldStep(at: word, j: nat)
    ensures Field(at, 0) == at && Field(Plus(at, 4), j) == Field(at, j + 1)
  {
    PlusNothing(at);
    PlusPlus(at, 4, 4 * j);
  }

  // ---------------------------------------------------------------- the context

  /** TRAMPOLINE_NAKED_CONTEXT, in the order of its fields. */
  datatype Context = Context(eflags: word, edi: word, esi: word, ebp: word, ebx: word, edx: word,
                             ecx: word, eax: word, esp: word, returnAddress: word)

  function ContextAt(memory: map<word, word>, at: word): Context
  {
    Context(Load(memory, Field(at, 0)), Load(memory, Field(at, 1)), Load(memory, Field(at, 2)),
            Load(memory, Field(at, 3)), Load(memory, Field(at, 4)), Load(memory, Field(at, 5)),
            Load(memory, Field(at, 6)), Load(memory, Field(at, 7)), Load(memory, Field(at, 8)),
            Load(memory, Field(at, 9)))
  }

  /** Where each field lies, in bytes from the start of the structure. */
  lemma ContextFields(memory: map<word, word>, at: word)
    ensures var c := ContextAt(memory, at);
            && c.eflags == Load(memory, Plus(at, 0)) && c.edi == Load(memory, Plus(at, 4))
            && c.esi == Load(memory, Plus(at, 8)) && c.ebp == Load(memory, Plus(at, 12))
            && c.ebx == Load(memory, Plus(at, 16)) && c.edx == Load(memory, Plus(at, 20))
            && c.ecx == Load(memory, Plus(at, 24)) && c.eax == Load(memory, Plus(at, 28))
            && c.esp == Load(memory, Plus(at, 32)) && c.returnAddress == Load(memory, Plus(at, 36))
  {
  }

  /** The address of field `j` of the structure at `at`. */
  function Field(at: word, j: nat): word
  {
    Plus(at, 4 * j)
  }

  /** The cell of the return address: pushed by the call hook itself, or by the frame. */
  function ReturnCell(hookOp: word, m: Machine): word
  {
    Plus(m.regs[ESP], if hookOp != OP_CALL then -4 else 0)
  }

  /** The context a machine state should be presented as. */
  function ContextOf(hookOp: word, m: Machine, returnAddress: word): Context
  {
    Context(m.regs[EFLAGS], m.regs[EDI], m.regs[ESI], m.regs[EBP], m.regs[EBX], m.regs[EDX],
            m.regs[ECX], m.regs[EAX], ReturnCell(hookOp, m), returnAddress)
  }

  /** The callback is reached with the context address in ecx and a return address below the
      context; on the way only the return-address cell and that one are written. */
  lemma CallBackEffect(m: Machine, returnAddress: word, target: word)
    ensures var m' := ExecAll(CallBack(returnAddress, target), m);
            && m'.regs == m.regs[EAX := target][ECX := m.regs[ESP]][ESP := Plus(m.regs[ESP], -4)]
            && m'.eip == target
            && m'.memory == m.memory[Plus(m.regs[ESP], 36) := returnAddress][Plus(m.regs[ESP], -4) := Wrap(m.eip + 19)]
  {
    hide Wrap, Encode, Plus, ExecAll;
    var ops := CallBack(returnAddress, target);
    var m1 := Exec(ops[0], Advance(m, ops[0]));
    var m2 := Exec(ops[1], Advance(m1, ops[1]));
    var m3 := Exec(ops[2], Advance(m2, ops[2]));
    var m4 := Exec(ops[3], Advance(m3, ops[3]));
    ExecCons(ops, m);
    ExecCons(ops[1..], m1);
    ExecCons(ops[2..], m2);
    ExecCons(ops[3..], m3);
    ExecCons(ops[4..], m4);
    CallBackLength(m.eip, returnAddress, target);
    assert m4.eip == Wrap(m.eip + 17) && |Encode(ops[4])| == 2;
    WrapSum(m.eip + 17, 2);
  }

  lemma ExecCons(ops: seq<Op>, m: Machine)
    requires ops != []
    ensures ExecAll(ops, m) == ExecAll(ops[1..], Exec(ops[0], Advance(m, ops[0])))
    ensures |ops| == 1 ==> ExecAll(ops, m) == Exec(ops[0], Advance(m, ops[0]))
    ensures forall i: nat | i < |ops| :: ops[i..][0] == ops[i] && (i < |ops| - 1 ==> ops[i..][1..] == ops[i + 1..])
  {
    hide Exec, Encode, Wrap;
  }

  lemma CallBackLength(eip: word, returnAddress: word, target: word)
    ensures var ops := CallBack(returnAddress, target);
            && |Encode(ops[0])| == 5 && |Encode(ops[1])| == 4 && |Encode(ops[2])| == 5
            && |Encode(ops[3])| == 3 && |Encode(ops[4])| == 2
            && Wrap(Wrap(Wrap(Wrap(eip + 5) + 4) + 5) + 3) == Wrap(eip + 17)
  {
    hide Wrap;
    WrapSum(eip + 5, 4);
    WrapSum(eip + 9, 5);
    WrapSum(eip + 14, 3);
  }

  lemma EntrySize(hookOp: word, returnAddress: word, target: word)
    ensures |EncodeAll(Entry(hookOp, returnAddress, target))| == |Room(hookOp) + SAVED| + 19
  {
    hide EncodeAll;
    EncodeAppend(Pushes(Room(hookOp) + SAVED), CallBack(returnAddress, target));
    PushBytes(Room(hookOp) + SAVED);
    ShortTails(returnAddress, target);
  }

  /** What a context and the callback's return address take of the stack, in cells. */
  const FRAME_CELLS := 11

  /** Memory changed at most in so many cells below `top`. */
  ghost predicate ChangedOnlyBelow(top: word, before: map<word, word>, after: map<word, word>)
  {
    forall a: word | !IsCell(top, FRAME_CELLS, a) :: Load(after, a) == Load(before, a)
  }

  /** What the callback sees: every register, the flags and the return address in their fields of
      the context ecx points to, whatever the state the hook was reached in; and on top of the
      stack, the address of the exit. */
  lemma EntryPresentsContext(hookOp: word, returnAddress: word, target: word, m: Machine)
    ensures var m' := ExecAll(Entry(hookOp, returnAddress, target), m);
            && m'.eip == target
            && m'.regs[ECX] == Plus(ReturnCell(hookOp, m), -36)
            && ContextAt(m'.memory, m'.regs[ECX]) == ContextOf(hookOp, m, returnAddress)
            && m'.regs[ESP] == Plus(m'.regs[ECX], -4)
            && Load(m'.memory, m'.regs[ESP]) == Wrap(m.eip + |EncodeAll(Entry(hookOp, returnAddress, target))|)
            && (forall r: Reg | r != EAX && r != ECX && r != ESP :: m'.regs[r] == m.regs[r])
            && ChangedOnlyBelow(Plus(ReturnCell(hookOp, m), 4), m.memory, m'.memory)
  {
    hide Wrap, Encode, Plus, ExecAll, Exec, Cell, IsCell, EncodeAll;
    EntrySize(hookOp, returnAddress, target);
    var regs := Room(hookOp) + SAVED;
    var n := |regs|;
    var sp := m.regs[ESP];
    ExecAppend(Pushes(regs), CallBack(returnAddress, target), m);
    PushesStore(regs, m);
    var m1 := ExecAll(Pushes(regs), m);
    CallBackEffect(m1, returnAddress, target);
    WrapSum(m.eip + n, 19);
    var m' := ExecAll(CallBack(returnAddress, target), m1);
    var ctx := m1.regs[ESP];
    ContextCells(sp, n);
    assert ReturnCell(hookOp, m) == Plus(sp, -4 * n + 36);
    assert m'.regs[ECX] == ctx == Plus(ReturnCell(hookOp, m), -36) by { PlusPlus(sp, -4 * n + 36, -36); }
    FieldsRead(regs, n, m, m1.memory, m'.memory, returnAddress, hookOp);
    forall a: word | !IsCell(Plus(ReturnCell(hookOp, m), 4), 11, a) ensures Load(m'.memory, a) == Load(m.memory, a) {
      WindowCovers(sp, n, a);
    }
  }

  lemma FieldsRead(regs: seq<Reg>, n: nat, m: Machine, before: map<word, word>, after: map<word, word>,
                   returnAddress: word, hookOp: word)
    requires regs == Room(hookOp) + SAVED && n == |regs|
    requires forall i: nat | i < n :: Load(before, Cell(m.regs[ESP], i)) == Pushed(regs, m, i)
    requires var ctx := Plus(m.regs[ESP], -4 * n);
             Load(after, Plus(ctx, 36)) == returnAddress
             && forall a | a != Plus(ctx, 36) && a != Plus(ctx, -4) :: Load(after, a) == Load(before, a)
    ensures ContextAt(after, Plus(m.regs[ESP], -4 * n)) == ContextOf(hookOp, m, returnAddress)
  {
    hide Plus, Cell;
    var sp := m.regs[ESP];
    var ctx := Plus(sp, -4 * n);
    ContextCells(sp, n);
    forall j: nat | j < 9 ensures Load(after, Field(ctx, j)) == Pushed(regs, m, n - 1 - j) {
      assert Load(before, Cell(sp, n - 1 - j)) == Pushed(regs, m, n - 1 - j);
    }
    assert Field(ctx, 9) == Plus(ctx, 36);
  }

  /** The cells written on the way to the callback all lie in one window of eleven. */
  lemma WindowCovers(sp: word, n: nat, a: word)
    requires 9 <= n <= 10 && !IsCell(Plus(Plus(sp, -4 * n + 36), 4), 11, a)
    ensures !IsCell(sp, n, a) && a != Plus(sp, -4 * n + 36) && a != Plus(Plus(sp, -4 * n), -4)
  {
    hide Plus;
    var top := Plus(Plus(sp, -4 * n + 36), 4);
    PlusPlus(sp, -4 * n + 36, 4);
    PlusPlus(sp, -4 * n, -4);
    forall i: nat | i < 11 ensures Cell(top, i) == Plus(sp, -4 * n + 36 - 4 * i) && a != Cell(top, i) {
      PlusPlus(sp, -4 * n + 40, -4 * (i + 1));
    }
    assert Cell(top, 0) == Plus(sp, -4 * n + 36) && Cell(top, 10) == Plus(sp, -4 * n - 4);
    forall i: nat | i < n ensures a != Cell(sp, i) {
      assert Cell(sp, i) == Cell(top, i + 10 - n);
    }
  }

  /** The fields of the context are the cells the pushes wrote, read the other way round. */
  lemma ContextCells(sp: word, n: nat)
    requires 9 <= n <= 10
    ensures var ctx := Plus(sp, -4 * n);
            forall j: nat | j < n :: Field(ctx, j) == Cell(sp, n - 1 - j)
    ensures var ctx := Plus(sp, -4 * n);
            && Plus(ctx, 36) == Plus(sp, -4 * n + 36)
            && (forall j: nat | j < 9 :: Field(ctx, j) != Plus(ctx, 36) && Field(ctx, j) != Plus(ctx, -4))
            && Plus(ctx, 36) != Plus(ctx, -4)
  {
    hide Plus;
    var ctx := Plus(sp, -4 * n);
    PlusPlus(sp, -4 * n, 36);
    PlusApart(ctx, 36, -4);
    forall j: nat | j < n ensures Field(ctx, j) == Cell(sp, n - 1 - j) {
      PlusPlus(sp, -4 * n, 4 * j);
    }
    forall j: nat | j < 9 ensures Field(ctx, j) != Plus(ctx, 36) && Field(ctx, j) != Plus(ctx, -4) {
      PlusApart(ctx, 4 * j, 36);
      PlusApart(ctx, 4 * j, -4);
    }
  }

  /** The registers a context asks for, once the return address is popped off its stack. */
  function RegistersOf(c: Context): Registers
  {
    [c.eax, c.ecx, c.edx, c.ebx, Plus(c.esp, 4), c.ebp, c.esi, c.edi, c.eflags]
  }

  /** What the exit does with a context, edited or not: every register and the flags are reloaded
      from it, and control returns through the stack it names. */
  lemma ExitReloadsContext(m: Machine)
    ensures var c := ContextAt(m.memory, m.regs[ESP]);
            ExecAll(Exit(), m) == Machine(RegistersOf(c), Load(m.memory, c.esp), m.memory)
  {
    hide Wrap, Encode, Plus, ExecAll, RegistersOf, Load, Exec;
    ExecAppend(Pops(RESTORED), [Pop(ESP), Ret], m);
    PopsLoad(RESTORED, m);
    var m1 := ExecAll(Pops(RESTORED), m);
    LeaveThroughStack(m1);
    assert m1.regs[ESP] == Field(m.regs[ESP], 8);
    ReloadedRegisters(m1.regs, m.memory, m.regs[ESP]);
  }

  /** pop esp; ret: the word on top of the stack becomes the stack pointer, and the return address
      is taken from there. */
  lemma LeaveThroughStack(m: Machine)
    ensures var sp := Load(m.memory, m.regs[ESP]);
            ExecAll([Pop(ESP), Ret], m) == Machine(m.regs[ESP := Plus(sp, 4)], Load(m.memory, sp), m.memory)
  {
    hide Wrap, Encode, Plus, ExecAll, Load;
    var last := [Pop(ESP), Ret];
    var m1 := Exec(Pop(ESP), Advance(m, Pop(ESP)));
    ExecCons(last, m);
    ExecCons(last[1..], m1);
    var sp := Load(m.memory, m.regs[ESP]);
    assert m1.regs == m.regs[ESP := Plus(m.regs[ESP], 4)][ESP := sp];
    assert m1.regs[ESP := Plus(sp, 4)] == m.regs[ESP := Plus(sp, 4)];
  }

  lemma ReloadedRegisters(regs: Registers, memory: map<word, word>, ctx: word)
    requires forall i: nat | i < 8 :: regs[RESTORED[i]] == Load(memory, Field(ctx, i))
    ensures regs[ESP := Plus(ContextAt(memory, ctx).esp, 4)] == RegistersOf(ContextAt(memory, ctx))
  {
    hide Plus, Field, Load;
    assert RESTORED[0] == EFLAGS && RESTORED[1] == EDI && RESTORED[2] == ESI && RESTORED[3] == EBP;
    assert RESTORED[4] == EBX && RESTORED[5] == EDX && RESTORED[6] == ECX && RESTORED[7] == EAX;
  }

  /** Entry, callback, exit. The callback may do anything that brings the stack pointer back to
      the context. The context it leaves decides every register; if it left the Rsp field alone,
      control goes to the context's return address; and if it left the whole context alone, all
      registers are as they were, but for a call hook's return address having been popped. */
  lemma RoundTrip(hookOp: word, returnAddress: word, target: word, m: Machine, back: Machine)
    requires var entered := ExecAll(Entry(hookOp, returnAddress, target), m);
             back.regs[ESP] == entered.regs[ECX]
    ensures var entered := ExecAll(Entry(hookOp, returnAddress, target), m);
            var left := ContextAt(back.memory, entered.regs[ECX]);
            var end := ExecAll(Exit(), back);
            && end.regs == RegistersOf(left)
            && (left.esp == ReturnCell(hookOp, m) ==> end.eip == left.returnAddress)
            && (left == ContextAt(entered.memory, entered.regs[ECX]) ==>
                  && end.eip == returnAddress
                  && end.regs == if hookOp == OP_CALL then m.regs[ESP := Plus(m.regs[ESP], 4)] else m.regs)
  {
    hide Wrap, Plus, ExecAll, Entry, Exit;
    var entered := ExecAll(Entry(hookOp, returnAddress, target), m);
    var ctx := entered.regs[ECX];
    var left := ContextAt(back.memory, ctx);
    EntryPresentsContext(hookOp, returnAddress, target, m);
    ExitReloadsContext(back);
    PlusPlus(ReturnCell(hookOp, m), -36, 36);
    PlusNothing(ReturnCell(hookOp, m));
    PlusNothing(m.regs[ESP]);
    PlusPlus(m.regs[ESP], -4, 4);
    assert Field(ctx, 9) == ReturnCell(hookOp, m);
  }

  // ---------------------------------------------------------------- as bytes in memory

  lemma {:induction false} EncodeAppend(a: seq<Op>, b: seq<Op>)
    ensures EncodeAll(a + b) == EncodeAll(a) + EncodeAll(b)
  {
    hide Encode;
    if a == [] {
      assert a + b == b;
    } else {
      assert (a + b)[0] == a[0] && (a + b)[1..] == a[1..] + b;
      EncodeAppend(a[1..], b);
    }
  }

  /** The frame as it lies in the trampoline, `before` bytes into it: running it from its first
      byte executes the entry; running it from where the callback returns executes the exit. */
  lemma FrameRuns(before: seq<byte>, after: seq<byte>, base: word, hookOp: word, returnAddress: word, target: word,
                  m: Machine)
    requires |before + EncodeAll(Frame(hookOp, returnAddress, target)) + after| < WORD_LIMIT
    ensures var code := before + EncodeAll(Frame(hookOp, returnAddress, target)) + after;
            var entry, exit := Entry(hookOp, returnAddress, target), Exit();
            && (m.eip == Wrap(base + |before|) ==> Run(code, base, m, |entry|) == Some(ExecAll(entry, m)))
            && (m.eip == Wrap(base + |before| + |EncodeAll(entry)|) ==>
                  Run(code, base, m, |exit|) == Some(ExecAll(exit, m)))
  {
    hide Wrap, Encode, Plus, ExecAll, EncodeAll, Run;
    var entry, exit := Entry(hookOp, returnAddress, target), Exit();
    EncodeAppend(entry, exit);
    var code := before + EncodeAll(Frame(hookOp, returnAddress, target)) + after;
    assert code == before + EncodeAll(entry) + (EncodeAll(exit) + after);
    assert code == (before + EncodeAll(entry)) + EncodeAll(exit) + after;
    if m.eip == Wrap(base + |before|) {
      RunIsExecAll(before, entry, EncodeAll(exit) + after, base, m);
    }
    if m.eip == Wrap(base + |before| + |EncodeAll(entry)|) {
      RunIsExecAll(before + EncodeAll(entry), exit, after, base, m);
    }
  }

  /** The whole trip in the bytes that run. Entered at its first byte, the frame hands the context to
      the callback. Whatever the callback does, if it returns to the word on top of the stack with
      the stack pointer back at the context, the bytes there reload every register from the context
      it leaves; and if it left the context alone, control goes to the return address with all
      registers as they were, but for a call hook's return address having been popped. Of memory, the
      way there changes only the cells below the return address, and the way back nothing. */
  lemma FrameRoundTrip(before: seq<byte>, after: seq<byte>, base: word, hookOp: word, returnAddress: word, target: word,
                       m: Machine, back: Machine)
    requires |before + EncodeAll(Frame(hookOp, returnAddress, target)) + after| < WORD_LIMIT
    requires m.eip == Wrap(base + |before|)
    ensures var code := before + EncodeAll(Frame(hookOp, returnAddress, target)) + after;
            var entered := Run(code, base, m, |Entry(hookOp, returnAddress, target)|);
            && entered.Some? && entered.value.eip == target
            && ContextAt(entered.value.memory, entered.value.regs[ECX]) == ContextOf(hookOp, m, returnAddress)
            && ChangedOnlyBelow(Plus(ReturnCell(hookOp, m), 4), m.memory, entered.value.memory)
            && (Returned(entered.value, back) ==>
                  var left := ContextAt(back.memory, entered.value.regs[ECX]);
                  var end := Run(code, base, back, |Exit()|);
                  && end.Some? && end.value.regs == RegistersOf(left) && end.value.memory == back.memory
                  && (left.esp == ReturnCell(hookOp, m) ==> end.value.eip == left.returnAddress)
                  && (left == ContextOf(hookOp, m, returnAddress) ==>
                        && end.value.eip == returnAddress
                        && end.value.regs == if hookOp == OP_CALL then m.regs[ESP := Plus(m.regs[ESP], 4)] else m.regs))
  {
    hide Wrap, Plus, ExecAll, EncodeAll, Run, Entry, Exit, ContextAt, ContextOf, Load, RegistersOf, ChangedOnlyBelow;
    var entry := Entry(hookOp, returnAddress, target);
    var entered := ExecAll(entry, m);
    FrameRuns(before, after, base, hookOp, returnAddress, target, m);
    EntryPresentsContext(hookOp, returnAddress, target, m);
    if Returned(entered, back) {
      WrapSum(base + |before|, |EncodeAll(entry)|);
      FrameRuns(before, after, base, hookOp, returnAddress, target, back);
      PlusPlus(entered.regs[ECX], -4, 4);
      PlusNothing(entered.regs[ECX]);
      RoundTrip(hookOp, returnAddress, target, m, back);
      ExitReloadsContext(back);
    }
  }

  /** The state in which a callback entered in the first state comes back: returned to the word on
      top of the stack, the stack pointer above that word. */
  predicate Returned(entered: Machine, back: Machine)
  {
    back.eip == Load(entered.memory, entered.regs[ESP]) && back.regs[ESP] == Plus(entered.regs[ESP], 4)
  }

  function PushByte(r: Reg): byte
  {
    if r == EFLAGS then 0x9C else 0x50 + (r as int)
  }

  function PopByte(r: Reg): byte
  {
    if r == EFLAGS then 0x9D else 0x58 + (r as int)
  }

  /** Pushes and pops of registers are one byte each. */
  lemma {:induction false} PushBytes(regs: seq<Reg>)
    ensures EncodeAll(Pushes(regs)) == seq(|regs|, i requires 0 <= i < |regs| => PushByte(regs[i]))
    ensures EncodeAll(Pops(regs)) == seq(|regs|, i requires 0 <= i < |regs| => PopByte(regs[i]))
  {
    if regs != [] {
      assert Pushes(regs)[1..] == Pushes(regs[1..]) && Pops(regs)[1..] == Pops(regs[1..]);
      PushBytes(regs[1..]);
    }
  }

  /** The bytes of the frame up to the return address, and from behind it. */
  function FrameHead(hookOp: word): seq<byte>
  {
    (if hookOp != OP_CALL then [0x50] else []) + [0x54, 0x50, 0x51, 0x52, 0x53, 0x55, 0x56, 0x57, 0x9C, 0xB8]
  }

  const FRAME_END: seq<byte> :=
    [0x8D, 0x0C, 0x24, 0xFF, 0xD0, 0x9D, 0x5F, 0x5E, 0x5D, 0x5B, 0x5A, 0x59, 0x58, 0x5C, 0xC3]

  function FrameTail(target: word): seq<byte>
  {
    [0x89, 0x44, 0x24, 0x24, 0xB8] + Bytes4(target) + FRAME_END
  }

  function FrameBytes(hookOp: word, returnAddress: word, target: word): (code: seq<byte>)
    ensures |code| == FrameSize(hookOp)
  {
    FrameHead(hookOp) + Bytes4(returnAddress) + FrameTail(target)
  }

  function FrameSize(hookOp: word): nat
  {
    if hookOp != OP_CALL then 39 else 38
  }

  lemma FrameBytesAreOps(hookOp: word, returnAddress: word, target: word)
    ensures EncodeAll(Frame(hookOp, returnAddress, target)) == FrameBytes(hookOp, returnAddress, target)
  {
    hide Bytes4, EncodeAll;
    var regs := Room(hookOp) + SAVED;
    EncodeAppend(Entry(hookOp, returnAddress, target), Exit());
    EncodeAppend(Pushes(regs), CallBack(returnAddress, target));
    EncodeAppend(Pops(RESTORED), [Pop(ESP), Ret]);
    PushBytes(regs);
    PushBytes(RESTORED);
    ShortTails(returnAddress, target);
    assert EncodeAll(Pushes(regs)) + [0xB8] == FrameHead(hookOp);
    assert EncodeAll(Pops(RESTORED)) == [0x9D, 0x5F, 0x5E, 0x5D, 0x5B, 0x5A, 0x59, 0x58];
  }

  lemma ShortTails(returnAddress: word, target: word)
    ensures EncodeAll(CallBack(returnAddress, target))
         == [0xB8] + Bytes4(returnAddress) + [0x89, 0x44, 0x24, 0x24, 0xB8] + Bytes4(target)
            + [0x8D, 0x0C, 0x24, 0xFF, 0xD0]
    ensures EncodeAll([Pop(ESP), Ret]) == [0x5C, 0xC3]
  {
    hide Bytes4;
    var ops := CallBack(returnAddress, target);
    EncodeCons(ops);
    EncodeCons(ops[1..]);
    EncodeCons(ops[2..]);
    EncodeCons(ops[3..]);
    EncodeCons(ops[4..]);
    var last := [Pop(ESP), Ret];
    EncodeCons(last);
    EncodeCons(last[1..]);
  }

  lemma EncodeCons(ops: seq<Op>)
    requires ops != []
    ensures EncodeAll(ops) == Encode(ops[0]) + EncodeAll(ops[1..])
    ensures |ops| == 1 ==> EncodeAll(ops) == Encode(ops[0])
    ensures forall i: nat | i < |ops| :: ops[i..][0] == ops[i] && (i < |ops| - 1 ==> ops[i..][1..] == ops[i + 1..])
  {
    hide Encode;
  }

  // ---------------------------------------------------------------- the generator

  /** What GenerateNakedTrampoline emits for a site of `size` bytes at `address` cut into
      `ins`, when the trampoline stands at `ip`: the stub before the frame, which then returns
      behind the site, or behind it, with a jump back. */
  function NakedBytes(hookOp: word, target: word, executeTrampoline: bool, scan: Scan, address: word, size: word,
                      ip: word, jumpBackAt: word): seq<byte>
  {
    if executeTrampoline then
      StubBytes(scan.ins, address, ip, size)
      + if scan.stop == Reached then FrameBytes(hookOp, Plus(address, size), target) else []
    else
      var next := Plus(ip, FrameSize(hookOp));
      FrameBytes(hookOp, next, target) + StubBytes(scan.ins, address, next, size)
      + if scan.stop == Reached then Encode(JmpMem(jumpBackAt)) else []
  }

  /** Emits the frame and tells where its return address lies. */
  method EmitFrame(trampoline: array<byte>, at: nat, hookOp: word, returnAddress: word, target: word)
    returns (end: nat, returnAt: nat)
    requires at + FrameSize(hookOp) <= trampoline.Length
    modifies trampoline
    ensures end == at + FrameSize(hookOp) && returnAt == at + |FrameHead(hookOp)|
    ensures trampoline[..] == Splice(old(trampoline[..]), at, FrameBytes(hookOp, returnAddress, target))
  {
    hide Splice, Bytes4;
    ghost var was := trampoline[..];
    end := at;
    SpliceNothing(was, at);
    if hookOp != OP_CALL {
      Store(trampoline, end, [0x50]);
      end := end + 1;
    }
    ghost var head := if hookOp != OP_CALL then [0x50] else [];
    SpliceTwice(was, at, head, [0x54, 0x50, 0x51, 0x52, 0x53, 0x55, 0x56, 0x57, 0x9C, 0xB8]);
    Store(trampoline, end, [0x54, 0x50, 0x51, 0x52, 0x53, 0x55, 0x56, 0x57, 0x9C, 0xB8]);
    end := end + 10;
    returnAt := end;
    SpliceTwice(was, at, FrameHead(hookOp), Bytes4(returnAddress));
    Store(trampoline, end, Bytes4(returnAddress));
    end := end + 4;
    SpliceTwice(was, at, FrameHead(hookOp) + Bytes4(returnAddress), FrameTail(target));
    Store(trampoline, end, FrameTail(target));
    end := end + 24;
  }

  /** Writing another return address into an emitted frame. */
  lemma PatchedFrame(was: seq<byte>, at: nat, hookOp: word, first: word, second: word, target: word)
    requires at + FrameSize(hookOp) <= |was|
    ensures Splice(Splice(was, at, FrameBytes(hookOp, first, target)), at + |FrameHead(hookOp)|, Bytes4(second))
         == Splice(was, at, FrameBytes(hookOp, second, target))
  {
    hide Bytes4;
  }

  /** GenerateNakedTrampoline. */
  method GenerateNakedTrampoline(trampoline: array<byte>, ip: word, code: seq<byte>, address: word, copyOpSize: word,
                                 hookOp: word, target: word, executeTrampoline: bool, jumpBackAt: word)
    returns (stop: Stop, end: nat)
    requires var scan := Take(code, copyOpSize);
             |NakedBytes(hookOp, target, executeTrampoline, scan, address, copyOpSize, ip, jumpBackAt)|
             <= trampoline.Length
    modifies trampoline
    ensures stop == Take(code, copyOpSize).stop
    ensures var scan := Take(code, copyOpSize);
            var naked := NakedBytes(hookOp, target, executeTrampoline, scan, address, copyOpSize, ip, jumpBackAt);
            && end == |naked| + (if !executeTrampoline && stop == Reached then 2 else 0)
            && trampoline[..] == Splice(old(trampoline[..]), 0, naked)
  {
    hide Splice, Take, StubBytes, FrameBytes, Plus, Bytes4, Encode;
    ghost var was := trampoline[..];
    ghost var ins := Take(code, copyOpSize).ins;
    JumpBackSize(jumpBackAt);
    end := 0;
    if executeTrampoline {
      stop, end := CopyTrampolineStub(trampoline, 0, ip, code, address, copyOpSize);
      if stop != Reached {
        return stop, end;
      }
      SpliceTwice(was, 0, StubBytes(ins, address, ip, copyOpSize),
                  FrameBytes(hookOp, Plus(address, copyOpSize), target));
    }
    var afterSite := Plus(address, copyOpSize);
    var start := end;
    var returnAt;
    end, returnAt := EmitFrame(trampoline, start, hookOp, afterSite, target);
    if executeTrampoline {
      return Reached, end;
    }
    var next := Plus(ip, end);
    PatchedFrame(was, 0, hookOp, afterSite, next, target);
    Store(trampoline, returnAt, Bytes4(next));
    ghost var frame := FrameBytes(hookOp, next, target);
    ghost var stub := StubBytes(ins, address, next, copyOpSize);
    SpliceTwice(was, 0, frame, stub);
    stop, end := CopyTrampolineStub(trampoline, end, next, code, address, copyOpSize);
    if stop != Reached {
      return stop, end;
    }
    SpliceTwice(was, 0, frame + stub, Encode(JmpMem(jumpBackAt)));
    end := GenerateJumpBack(trampoline, end, jumpBackAt);
  }
}
