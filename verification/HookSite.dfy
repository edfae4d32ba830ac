/** Finding the place to hook: follow jumps from the requested address, then count off whole
    instructions until the hook fits. */
module HookSite {
  import opened Words
  import opened Lde
  import opened Relocation

  /** What can be read from an address on. Memory ends where reading would fault. */
  function Readable(mem: seq<byte>, address: word): seq<byte>
  {
    if address <= |mem| then mem[address..] else []
  }

  datatype Hop = Settled | Follows(to: word) | BadPointer

  /** Whether the search leaves `address` for another one: over a short jump with a non-zero
      displacement, or through the pointer of `jmp [m32]` when the hook is longer than that. */
  function HopAt(mem: seq<byte>, address: word, need: nat): Hop
  {
    var code := Readable(mem, address);
    if need == 0 || StartsWithReturn(code) || First(code) == [] || |code| < 2 then Settled
    else if code[0] == 0xEB then
      if code[1] == 0 then Settled else Follows(Wrap(address + SignedByte(code[1]) + 2))
    else if code[0] == 0xFF && code[1] == 0x25 && need > 6 && |code| >= 6 then
      var pointer := Readable(mem, Word4(code[2..]));
      if |pointer| < 4 then BadPointer else Follows(Word4(pointer))
    else Settled
  }

  /** The chain of jumps from `address` comes to rest within `hops` jumps. */
  predicate Settles(mem: seq<byte>, address: word, need: nat, hops: nat)
    decreases hops
  {
    match HopAt(mem, address, need)
    case Follows(to) => hops > 0 && Settles(mem, to, need, hops - 1)
    case _ => true
  }

  /** Where it comes to rest. */
  function ChainEnd(mem: seq<byte>, address: word, need: nat, hops: nat): word
    requires Settles(mem, address, need, hops)
    decreases hops
  {
    match HopAt(mem, address, need)
    case Follows(to) => ChainEnd(mem, to, need, hops - 1)
    case _ => address
  }

  predicate BareJump(ins: seq<byte>)
  {
    |ins| >= 2 && (ins[0] == 0xEB || (ins[0] == 0xFF && ins[1] == 0x25))
  }

  /** A jump that ends the straight line too early: neither the first instruction of the site
      nor the one that makes it long enough. */
  ghost predicate Misplaced(ins: seq<seq<byte>>, need: nat, i: nat)
    requires i < |ins|
  {
    i > 0 && BareJump(ins[i]) && Offset(ins, i) + |ins[i]| < need
  }

  ghost predicate HasMisplaced(ins: seq<seq<byte>>, need: nat)
  {
    exists i | 0 <= i < |ins| :: Misplaced(ins, need, i)
  }

  datatype Found = Found(address: word, size: nat) | TooSmall | Fault

  /** What GetHookAddressAndSize answers. */
  ghost function SiteOf(mem: seq<byte>, address: word, need: nat, hops: nat): Found
    requires Settles(mem, address, need, hops)
  {
    var end := ChainEnd(mem, address, need, hops);
    var scan := Take(Readable(mem, end), need);
    if HopAt(mem, end, need).BadPointer? then Fault
    else if HasMisplaced(scan.ins, need) || scan.stop == AtReturn then TooSmall
    else if scan.stop == OutOfCode then Fault
    else Found(end, |Flatten(scan.ins)|)
  }

  // ---------------------------------------------------------------- the scanning loop

  /** The scan of `code` has taken the instructions `done`, `opSize` bytes in all, and found
      no misplaced jump among them. */
  ghost predicate Progress(code: seq<byte>, need: nat, opSize: nat, done: seq<seq<byte>>)
  {
    && opSize <= |code| && Flatten(done) == code[..opSize] && (opSize == 0 <==> done == [])
    && !HasMisplaced(done, need)
    && var rest := Take(code[opSize..], need - opSize);
       Take(code, need) == Scan(done + rest.ins, rest.stop)
  }

  lemma StartOfScan(code: seq<byte>, need: nat)
    ensures Progress(code, need, 0, [])
  {
    hide Take, First;
    assert code[0..] == code && code[..0] == [];
    var none: seq<seq<byte>> := [];
    assert none + Take(code, need).ins == Take(code, need).ins;
  }

  lemma ProgressStep(code: seq<byte>, need: nat, opSize: nat, done: seq<seq<byte>>)
    requires Progress(code, need, opSize, done)
    ensures opSize <= |code| && !HasMisplaced(done, need) && |Flatten(done)| == opSize
    ensures var ins := First(code[opSize..]);
            if opSize >= need then Take(code, need) == Scan(done, Reached)
            else if StartsWithReturn(code[opSize..]) then Take(code, need) == Scan(done, AtReturn)
            else if ins == [] then Take(code, need) == Scan(done, OutOfCode)
            else if opSize > 0 && BareJump(ins) && opSize + |ins| < need then HasMisplaced(Take(code, need).ins, need)
            else Progress(code, need, opSize + |ins|, done + [ins])
  {
    hide First, Flatten, StartsWithReturn, BareJump;
    var ins := First(code[opSize..]);
    if opSize < need && !StartsWithReturn(code[opSize..]) && ins != [] {
      var more := done + [ins];
      var rest := Take(code[opSize..][|ins|..], need - opSize - |ins|);
      var all := more + rest.ins;
      assert code[opSize + |ins|..] == code[opSize..][|ins|..];
      assert done + ([ins] + rest.ins) == all;
      FlattenSplits(more, |done|);
      assert more[..|done|] == done && more[|done|..] == [ins];
      assert all[..|done|] == done;
      FlattenOne(ins);
      if opSize > 0 && BareJump(ins) && opSize + |ins| < need {
        assert Misplaced(all, need, |done|);
      } else {
        forall i | 0 <= i < |more| ensures !Misplaced(more, need, i) {
          if i < |done| {
            assert more[..i] == done[..i];
            assert !Misplaced(done, need, i);
          }
        }
        assert code[..opSize] + ins == code[..opSize + |ins|];
      }
    }
  }

  lemma FlattenOne(ins: seq<byte>)
    ensures Flatten([ins]) == ins
  {
  }

  lemma FirstHere(code: seq<byte>)
    requires Decode(code).Some? && Decode(code).value.size <= |code|
    ensures var n := Decode(code).value.size;
            && n > 0 && First(code) == code[..n]
            && (code[0] == 0xEB ==> n == 2)
            && (|code| >= 2 && code[0] == 0xFF && code[1] == 0x25 ==> n == 6)
  {
    hide BodySize;
    SizeIsPositive(code);
    BranchLength(code);
    if |code| >= 2 && code[0] == 0xFF && code[1] == 0x25 {
      IndirectJumpLength(code);
    }
  }

  /** jmp [m32] takes six bytes. */
  lemma IndirectJumpLength(code: seq<byte>)
    requires |code| >= 2 && code[0] == 0xFF && code[1] == 0x25
    ensures Decode(code) == Some(Decoded(6, 0))
  {
    assert code[0..] == code && code[..0] == [];
  }

  lemma NoFirst(code: seq<byte>)
    ensures Decode(code).None? || Decode(code).value.size > |code| ==> First(code) == []
  {
    hide Decode;
  }

  lemma ChainStep(mem: seq<byte>, address: word, need: nat, hops: nat)
    requires Settles(mem, address, need, hops)
    ensures match HopAt(mem, address, need)
            case Follows(to) => hops > 0 && Settles(mem, to, need, hops - 1)
                                && ChainEnd(mem, to, need, hops - 1) == ChainEnd(mem, address, need, hops)
            case _ => ChainEnd(mem, address, need, hops) == address
  {
    hide HopAt;
  }

  // ---------------------------------------------------------------- the search

  /** GetHookAddressAndSize. The source loops for ever on a cycle of jumps, so the chain from
      `address` must settle; `hops` bounds it. */
  method GetHookAddressAndSize(mem: seq<byte>, address: word, need: nat, ghost hops: nat) returns (r: Found)
    requires |mem| <= WORD_LIMIT && Settles(mem, address, need, hops)
    ensures r == SiteOf(mem, address, need, hops)
  {
    hide Decode, First, Take, HasMisplaced, Flatten, Word4, Progress, Settles, ChainEnd, Readable;
    var opSize: nat, final: word := 0, address;
    ghost var left := hops;
    ghost var done: seq<seq<byte>> := [];
    ghost var end := ChainEnd(mem, address, need, hops);
    StartOfScan(Readable(mem, final), need);
    while opSize < need
      invariant opSize == 0 ==> done == [] && Settles(mem, final, need, left) && ChainEnd(mem, final, need, left) == end
      invariant opSize > 0 ==> final == end && HopAt(mem, end, need).Settled?
      invariant Progress(Readable(mem, final), need, opSize, done)
      decreases left, need - opSize
    {
      ghost var here := Readable(mem, final);
      ProgressStep(here, need, opSize, done);
      var code := Readable(mem, final)[opSize..];
      if opSize == 0 {
        assert code == here;
        ChainStep(mem, final, need, left);
      }
      if StartsWithReturn(code) {
        return TooSmall;
      }
      var d := LdeGetOpCodeSize32(code);
      NoFirst(code);
      if d.None? || d.value.size > |code| {
        return Fault;
      }
      var length := d.value.size;
      FirstHere(code);

      if code[0] == 0xEB {
        if opSize == 0 {
          if code[1] != 0 {
            final := Wrap(final + SignedByte(code[1]) + length);
            left := left - 1;
            StartOfScan(Readable(mem, final), need);
            continue;
          }
        } else if opSize < need - length {
          return TooSmall;
        }
      } else if |code| >= 2 && code[0] == 0xFF && code[1] == 0x25 {
        if opSize != 0 && opSize + length < need {
          return TooSmall;
        }
        if opSize == 0 && need > length {
          var pointer := Readable(mem, Word4(code[2..]));
          if |pointer| < 4 { return Fault; }
          final := Word4(pointer);
          left := left - 1;
          StartOfScan(Readable(mem, final), need);
          continue;
        }
      }
      opSize := opSize + length;
      done := done + [code[..length]];
    }
    ProgressStep(Readable(mem, final), need, opSize, done);
    if opSize == 0 {
      ChainStep(mem, final, need, left);
    }
    return Found(final, opSize);
  }

  // ---------------------------------------------------------------- what is found

  /** A usable site at the front of `code`: whole instructions, just enough of them, no near return
      (C2, C3), and no bare jump (EB, or FF 25) that is neither the first instruction nor the one
      that makes the site long enough. */
  ghost predicate Usable(code: seq<byte>, ins: seq<seq<byte>>, need: nat)
  {
    && AllWhole(ins) && Flatten(ins) <= code
    && need <= |Flatten(ins)|
    && forall i | 0 <= i < |ins| ::
         && Offset(ins, i) < need && ins[i] != []
         && ins[i][0] != 0xC2 && ins[i][0] != 0xC3
         && (i > 0 && |ins[i]| > 1 && (ins[i][0] == 0xEB || (ins[i][0] == 0xFF && ins[i][1] == 0x25)) ==>
               Offset(ins, i) + |ins[i]| >= need)
  }

  /** The same in the terms of the scan. */
  lemma UsableUnfolded(code: seq<byte>, ins: seq<seq<byte>>, need: nat)
    ensures Usable(code, ins, need)
            <==> && AllWhole(ins) && Flatten(ins) <= code && need <= |Flatten(ins)|
                 && (forall i | 0 <= i < |ins| :: Offset(ins, i) < need && !StartsWithReturn(ins[i]))
                 && !HasMisplaced(ins, need)
  {
    hide Decode, Flatten, Offset, HasMisplaced;
    MisplacedUnfolded(ins, need);
    if AllWhole(ins) {
      forall i | 0 <= i < |ins| ensures ins[i] != [] {
        assert Whole(ins[i]);
        WholeStandsAlone(ins[i], []);
      }
    }
  }

  /** The search succeeds exactly when there is a usable site where the chain of jumps comes to
      rest, and then answers with that address and the length of that site. */
  lemma FoundIffUsable(mem: seq<byte>, address: word, need: nat, hops: nat, found: word, size: nat)
    requires Settles(mem, address, need, hops)
    ensures SiteOf(mem, address, need, hops) == Found(found, size)
            <==> && found == ChainEnd(mem, address, need, hops) && !HopAt(mem, found, need).BadPointer?
                 && exists ins :: Usable(Readable(mem, found), ins, need) && |Flatten(ins)| == size
  {
    hide Decode, Usable, HasMisplaced, Take, Settles, HopAt, Readable, Flatten, StartsWithReturn, Whole;
    var end := ChainEnd(mem, address, need, hops);
    var code := Readable(mem, end);
    if SiteOf(mem, address, need, hops) == Found(found, size) {
      var ins := Take(code, need).ins;
      TakeIsInstructions(code, need);
      TakeIsShortest(code, need);
      EarlierOffsets(ins, need);
      UsableUnfolded(code, ins, need);
      assert Usable(code, ins, need) && |Flatten(ins)| == size;
    }
    if found == end && !HopAt(mem, found, need).BadPointer?
       && exists ins :: Usable(code, ins, need) && |Flatten(ins)| == size {
      var ins :| Usable(code, ins, need) && |Flatten(ins)| == size;
      UsableUnfolded(code, ins, need);
      TakeFinds(code, need, ins);
    }
  }

  lemma {:induction false} EarlierOffsets(ins: seq<seq<byte>>, need: nat)
    requires ins != [] ==> |Flatten(ins[..|ins| - 1])| < need
    ensures forall i | 0 <= i < |ins| :: Offset(ins, i) < need
  {
    hide Flatten;
    forall i | 0 <= i < |ins| ensures Offset(ins, i) < need {
      var init := ins[..|ins| - 1];
      FlattenSplits(init, i);
      assert init[..i] == ins[..i];
    }
  }

  /** The scan stops at a return exactly when behind what it took, and before it has enough, there is
      a byte C2 or C3. */
  lemma StopsAtReturn(code: seq<byte>, need: nat)
    ensures var Scan(ins, stop) := Take(code, need);
            var n := |Flatten(ins)|;
            && n <= |code|
            && (stop == AtReturn <==> n < need && n < |code| && (code[n] == 0xC2 || code[n] == 0xC3))
            && forall i | 0 <= i < |ins| :: ins[i] != [] && ins[i][0] != 0xC2 && ins[i][0] != 0xC3
  {
    hide Decode, Take, Flatten, Whole;
    TakeIsInstructions(code, need);
    TakeIsShortest(code, need);
    var ins := Take(code, need).ins;
    forall i | 0 <= i < |ins| ensures ins[i] != [] {
      WholeStandsAlone(ins[i], []);
    }
    OutOfCodeIsNoReturn(code, need);
  }

  lemma {:induction false} OutOfCodeIsNoReturn(code: seq<byte>, need: int)
    ensures var Scan(ins, stop) := Take(code, need);
            |Flatten(ins)| <= |code| && (stop == OutOfCode ==> !StartsWithReturn(code[|Flatten(ins)|..]))
    decreases |code|
  {
    hide Decode, First;
    if need > 0 && !StartsWithReturn(code) && First(code) != [] {
      var ins := First(code);
      var rest := Take(code[|ins|..], need - |ins|).ins;
      OutOfCodeIsNoReturn(code[|ins|..], need - |ins|);
      assert Flatten([ins] + rest) == ins + Flatten(rest) by { assert ([ins] + rest)[1..] == rest; }
      assert code[|ins|..][|Flatten(rest)|..] == code[|ins| + |Flatten(rest)|..];
    } else {
      assert code[0..] == code;
    }
  }

  /** Code that begins with a near return cannot be hooked. */
  lemma ReturnIsTooSmall(mem: seq<byte>, address: word, need: nat, hops: nat)
    requires need > 0 && address < |mem| && (mem[address] == 0xC2 || mem[address] == 0xC3)
    ensures Settles(mem, address, need, hops) && SiteOf(mem, address, need, hops) == TooSmall
  {
    hide Decode;
  }

  /** The search gives up as too small exactly when where it comes to rest, of the instructions it
      would take, one is a misplaced bare jump, or they are too few and a byte C2 or C3 follows. */
  lemma TooSmallIff(mem: seq<byte>, address: word, need: nat, hops: nat)
    requires Settles(mem, address, need, hops)
    ensures var end := ChainEnd(mem, address, need, hops);
            var code := Readable(mem, end);
            var ins := Take(code, need).ins;
            && |Flatten(ins)| <= |code|
            && (SiteOf(mem, address, need, hops) == TooSmall
                <==> && !HopAt(mem, end, need).BadPointer?
                     && (|| (exists i | 0 < i < |ins| ::
                               && |ins[i]| > 1 && (ins[i][0] == 0xEB || (ins[i][0] == 0xFF && ins[i][1] == 0x25))
                               && Offset(ins, i) + |ins[i]| < need)
                         || (var n := |Flatten(ins)|;
                             n < need && n < |code| && (code[n] == 0xC2 || code[n] == 0xC3))))
  {
    hide Decode, Take, Flatten, Settles, HopAt, Readable, Offset, Whole;
    var code := Readable(mem, ChainEnd(mem, address, need, hops));
    StopsAtReturn(code, need);
    var ins := Take(code, need).ins;
    assert HasMisplaced(ins, need)
           <==> exists i | 0 < i < |ins| ::
                  && |ins[i]| > 1 && (ins[i][0] == 0xEB || (ins[i][0] == 0xFF && ins[i][1] == 0x25))
                  && Offset(ins, i) + |ins[i]| < need by {
      MisplacedUnfolded(ins, need);
    }
  }

  lemma MisplacedUnfolded(ins: seq<seq<byte>>, need: nat)
    ensures HasMisplaced(ins, need)
            <==> exists i | 0 < i < |ins| ::
                   && |ins[i]| > 1 && (ins[i][0] == 0xEB || (ins[i][0] == 0xFF && ins[i][1] == 0x25))
                   && Offset(ins, i) + |ins[i]| < need
  {
    hide Offset;
    if HasMisplaced(ins, need) {
      var i :| 0 <= i < |ins| && Misplaced(ins, need, i);
      assert 0 < i < |ins| && BareJump(ins[i]);
    }
    if i :| 0 < i < |ins| && |ins[i]| > 1 && (ins[i][0] == 0xEB || (ins[i][0] == 0xFF && ins[i][1] == 0x25))
            && Offset(ins, i) + |ins[i]| < need {
      assert Misplaced(ins, need, i);
    }
  }

  // ---------------------------------------------------------------- where the search goes on

  /** Over a short jump, forward or back, the search goes on where the jump goes. */
  lemma FollowsShortJump(mem: seq<byte>, address: word, need: nat, hops: nat, displacement: int)
    requires need > 0 && address + 2 <= |mem| && mem[address] == 0xEB && mem[address + 1] != 0
    requires var b: int := mem[address + 1];
             displacement == if b < 0x80 then b else b - 0x100
    ensures var to := Wrap(address + 2 + displacement);
            && (Settles(mem, address, need, hops + 1) <==> Settles(mem, to, need, hops))
            && (Settles(mem, to, need, hops) ==>
                  SiteOf(mem, address, need, hops + 1) == SiteOf(mem, to, need, hops))
  {
    hide Decode, Take, Flatten, HasMisplaced;
    var code := Readable(mem, address);
    assert code[0] == 0xEB && code[1] == mem[address + 1];
    BranchLength(code);
    assert HopAt(mem, address, need) == Follows(Wrap(address + 2 + displacement));
  }

  /** Through an indirect jump, for a hook that is longer, it goes on at the address the pointer cell
      holds; a cell that cannot be read is a fault; and a hook of at most six bytes takes the jump as
      its site. */
  lemma FollowsPointer(mem: seq<byte>, address: word, need: nat, hops: nat, cell: word)
    requires need > 0 && address + 6 <= |mem| && mem[address] == 0xFF && mem[address + 1] == 0x25
    requires mem[address + 2..address + 6] == Bytes4(cell)
    ensures need > 6 && cell + 4 <= |mem| ==>
              var to := Word4(mem[cell..cell + 4]);
              && (Settles(mem, address, need, hops + 1) <==> Settles(mem, to, need, hops))
              && (Settles(mem, to, need, hops) ==>
                    SiteOf(mem, address, need, hops + 1) == SiteOf(mem, to, need, hops))
    ensures need > 6 && cell + 4 > |mem| ==>
              Settles(mem, address, need, hops) && SiteOf(mem, address, need, hops) == Fault
    ensures need <= 6 ==> Settles(mem, address, need, hops) && SiteOf(mem, address, need, hops) == Found(address, 6)
  {
    hide Decode, Take, Flatten, HasMisplaced, Word4, Bytes4;
    var code := Readable(mem, address);
    assert code[0] == 0xFF && code[1] == 0x25;
    IndirectJumpLength(code);
    SameWord(code[2..], mem[address + 2..address + 6], cell);
    if need > 6 {
      var pointer := Readable(mem, cell);
      if cell + 4 <= |mem| {
        SameWord(pointer, mem[cell..cell + 4], Word4(mem[cell..cell + 4]));
        assert HopAt(mem, address, need) == Follows(Word4(mem[cell..cell + 4]));
      } else {
        assert HopAt(mem, address, need) == BadPointer;
      }
    } else {
      TakeOne(code, 6, need);
      assert HopAt(mem, address, need) == Settled;
    }
  }

  lemma SameWord(code: seq<byte>, front: seq<byte>, w: word)
    requires |front| == 4 && front <= code && Word4(front) == w
    ensures |code| >= 4 && Word4(code) == w
  {
    assert code[0] == front[0] && code[1] == front[1] && code[2] == front[2] && code[3] == front[3];
  }

  /** A scan that has enough with its first instruction. */
  lemma TakeOne(code: seq<byte>, size: nat, need: nat)
    requires 0 < need <= size <= |code| && Decode(code) == Some(Decoded(size, 0)) && !StartsWithReturn(code)
    ensures Take(code, need) == Scan([code[..size]], Reached)
    ensures Flatten([code[..size]]) == code[..size] && |code[..size]| == size && !HasMisplaced([code[..size]], need)
  {
    hide Decode;
    FlattenOne(code[..size]);
    assert First(code) == code[..size];
  }

  /** Copying a site the search has found never fails: the copier takes the same instructions
      and ends with no byte left over. */
  lemma FoundSiteIsCopied(mem: seq<byte>, address: word, need: nat, hops: nat)
    requires Settles(mem, address, need, hops) && SiteOf(mem, address, need, hops).Found?
    ensures var Found(found, size) := SiteOf(mem, address, need, hops);
            var code := Readable(mem, found);
            var ins := Take(code, need).ins;
            && Take(code, size) == Scan(ins, Reached)
            && Instructions(code, size) == Some(ins) && |Flatten(ins)| == size <= |code|
            && AllWhole(ins)
            && (ins != [] ==> need <= size < need + |ins[|ins| - 1]|)
  {
    hide Decode, HasMisplaced, Take, Settles, HopAt, Readable, Flatten, StartsWithReturn, Whole, Instructions;
    var end := ChainEnd(mem, address, need, hops);
    var code := Readable(mem, end);
    var ins := Take(code, need).ins;
    TakeIsInstructions(code, need);
    TakeIsShortest(code, need);
    TakeAgain(code, need);
    TakeIsCut(code, need);
    if ins != [] {
      FlattenInit(ins);
    }
  }

  /** How far one is prepared to follow jumps does not change where the chain ends. */
  lemma {:induction false} ChainEndIsUnique(mem: seq<byte>, address: word, need: nat, hops: nat, hops': nat)
    requires Settles(mem, address, need, hops) && Settles(mem, address, need, hops')
    ensures ChainEnd(mem, address, need, hops) == ChainEnd(mem, address, need, hops')
    ensures !HopAt(mem, ChainEnd(mem, address, need, hops), need).Follows?
    decreases hops
  {
    hide HopAt;
    match HopAt(mem, address, need)
    case Follows(to) => ChainEndIsUnique(mem, to, need, hops - 1, hops' - 1);
    case _ =>
  }

  // ---------------------------------------------------------------- when there is no end to it

  /** From every address of the set the search follows a jump to an address of the set. */
  predicate Closed(mem: seq<byte>, need: nat, cycle: set<word>)
  {
    forall a | a in cycle :: HopAt(mem, a, need).Follows? && HopAt(mem, a, need).to in cycle
  }

  /** Such a set is never left: no bound makes the search end. */
  lemma {:induction false} CyclesNeverSettle(mem: seq<byte>, need: nat, cycle: set<word>, address: word, hops: nat)
    requires address in cycle && Closed(mem, need, cycle)
    ensures !Settles(mem, address, need, hops)
    decreases hops
  {
    hide HopAt;
    if hops > 0 {
      CyclesNeverSettle(mem, need, cycle, HopAt(mem, address, need).to, hops - 1);
    }
  }

  /** The search from `a` gets to the end of its chain of jumps. */
  ghost predicate ComesToRest(mem: seq<byte>, need: nat, a: word)
  {
    exists hops: nat :: Settles(mem, a, need, hops)
  }

  /** A chain that never comes to rest goes on from an address whose chain never does either. */
  lemma RestlessFollows(mem: seq<byte>, need: nat, a: word)
    requires !ComesToRest(mem, need, a)
    ensures HopAt(mem, a, need).Follows? && !ComesToRest(mem, need, HopAt(mem, a, need).to)
  {
    hide HopAt;
    assert !Settles(mem, a, need, 0);
    var to := HopAt(mem, a, need).to;
    if ComesToRest(mem, need, to) {
      var hops: nat :| Settles(mem, to, need, hops);
      assert Settles(mem, a, need, hops + 1);
    }
  }

  /** The search comes to rest if and only if its address lies in no closed set: it returns on all
      memory but that with a cycle of jumps ahead. */
  lemma SettlesUnlessCycle(mem: seq<byte>, need: nat, address: word)
    ensures ComesToRest(mem, need, address)
            <==> !exists cycle: set<word> :: address in cycle && Closed(mem, need, cycle)
  {
    hide HopAt;
    if exists cycle: set<word> :: address in cycle && Closed(mem, need, cycle) {
      var cycle: set<word> :| address in cycle && Closed(mem, need, cycle);
      forall hops: nat ensures !Settles(mem, address, need, hops) {
        CyclesNeverSettle(mem, need, cycle, address, hops);
      }
    }
    if !ComesToRest(mem, need, address) {
      var cycle := set a: word | 0 <= a < WORD_LIMIT && !ComesToRest(mem, need, a);
      forall a | a in cycle ensures HopAt(mem, a, need).Follows? && HopAt(mem, a, need).to in cycle {
        RestlessFollows(mem, need, a);
      }
      assert address in cycle && Closed(mem, need, cycle);
    }
  }

  /** An instance: a short jump to itself, wherever it lies. */
  lemma JumpToItself(mem: seq<byte>, need: nat, at: word)
    requires need > 0 && at + 2 <= |mem| && mem[at] == 0xEB && mem[at + 1] == 0xFE
    ensures HopAt(mem, at, need) == Follows(at)
    ensures !ComesToRest(mem, need, at)
  {
    hide Decode;
    var code := Readable(mem, at);
    assert code[0] == 0xEB && code[1] == 0xFE;
    BranchLength(code);
    WrapWord(at);
    forall hops: nat ensures !Settles(mem, at, need, hops) {
      CyclesNeverSettle(mem, need, {at}, at, hops);
    }
  }
}
