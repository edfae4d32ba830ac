/** Running a relocated stub. A small machine steps through code bytes, decoding as it goes;
    the stub followed by its jump back does, step for step, what the hook site did. */
module Simulation {
  import opened Words
  import opened Lde
  import opened Branches
  import opened Relocation

  // ---------------------------------------------------------------- the machine

  /** What an instruction that is not a recognised branch does to a machine state: go on, or
      send control to an absolute address (returns, indirect jumps). */
  datatype Effect<S> = Falls(s: S) | Jumps(to: word, s: S)

  /** The parts of a processor that relocation does not look into: the effect of the bytes of
      an instruction at an address, and whether a condition code holds. */
  datatype Cpu<!S> = Cpu(exec: (word, seq<byte>, S) -> Effect<S>, holds: (nat, S) -> bool)

  /** A destination: an offset in the code being run, or an address outside it. */
  datatype Place = Within(at: nat) | Beyond(to: word)

  datatype Status<S> =
    | Running(at: nat, s: S)
    | Left(to: word, s: S)
    | Calling(callee: Place, resume: nat, s: S)

  /** An address seen from offset `from` of `size` bytes at `base`. The first byte is an entry
      point of its own (a hook sits there), so it counts as inside only for an instruction
      that stands there and branches to itself. */
  function PlaceOf(size: nat, base: word, from: nat, to: word): Place
  {
    var t := Wrap(to - base);
    if t < size && (t > 0 || from == 0) then Within(t) else Beyond(to)
  }

  function Go<S>(place: Place, s: S): Status<S>
  {
    match place
    case Within(at) => Running(at, s)
    case Beyond(to) => Left(to, s)
  }

  /** A branch, as the copier knows it, to `place`, with `next` behind it. */
  function Follow<S>(cpu: Cpu<S>, branch: Branch, place: Place, next: nat, s: S): Status<S>
  {
    match branch
    case Jcc(cond) => if cpu.holds(cond, s) then Go(place, s) else Running(next, s)
    case Jmp => Go(place, s)
    case Call => Calling(place, next, s)
  }

  /** What one fetched instruction does. */
  function Perform<S>(cpu: Cpu<S>, ins: seq<byte>, size: nat, base: word, at: nat, s: S): Status<S>
  {
    match ControlOf(ins, Wrap(base + at))
    case JumpIf(cc, to) => if cpu.holds(cc, s) then Go(PlaceOf(size, base, at, to), s) else Running(at + |ins|, s)
    case JumpTo(to) => Go(PlaceOf(size, base, at, to), s)
    case CallTo(to) => Calling(PlaceOf(size, base, at, to), at + |ins|, s)
    case Plain =>
      match cpu.exec(Wrap(base + at), ins, s)
      case Falls(s') => Running(at + |ins|, s')
      case Jumps(to, s') => Left(to, s')
  }

  /** One step at offset `at` of `code` loaded at `base`; running off the end leaves to the
      address just behind the code. */
  function Step<S>(cpu: Cpu<S>, code: seq<byte>, base: word, at: nat, s: S): Status<S>
  {
    if at < |code| then Perform(cpu, First(code[at..]), |code|, base, at, s)
    else Left(Wrap(base + |code|), s)
  }

  /** At most `fuel` steps, ending early when control leaves or a call is made. */
  function Run<S>(cpu: Cpu<S>, code: seq<byte>, base: word, at: nat, s: S, fuel: nat): Status<S>
    decreases fuel
  {
    if fuel == 0 then Running(at, s)
    else match Step(cpu, code, base, at, s)
      case Running(at', s') => Run(cpu, code, base, at', s', fuel - 1)
      case Left(to, s') => Left(to, s')
      case Calling(callee, resume, s') => Calling(callee, resume, s')
  }

  /** Fetching at the start of instruction `k` fetches instruction `k`. */
  lemma FetchAt(list: seq<seq<byte>>, tail: seq<byte>, k: nat)
    requires AllWhole(list) && k < |list|
    ensures Offset(list, k) < |Flatten(list) + tail|
    ensures First((Flatten(list) + tail)[Offset(list, k)..]) == list[k]
  {
    hide Decode, Whole, Flatten;
    FlattenSplits(list, k);
    FlattenFrom(list, k);
    SkipPrefix(Flatten(list[..k]), list[k], Flatten(list[k + 1..]), tail);
    FirstOfWhole(list[k], Flatten(list[k + 1..]) + tail);
  }

  lemma FlattenFrom(list: seq<seq<byte>>, k: nat)
    requires k < |list|
    ensures Flatten(list[k..]) == list[k] + Flatten(list[k + 1..])
  {
    assert list[k..][1..] == list[k + 1..];
  }

  lemma FirstOfWhole(ins: seq<byte>, rest: seq<byte>)
    requires Whole(ins)
    ensures |ins| > 0 && First(ins + rest) == ins
  {
    hide Decode;
    WholeStandsAlone(ins, rest);
  }

  lemma SkipPrefix(before: seq<byte>, x: seq<byte>, after: seq<byte>, tail: seq<byte>)
    ensures (before + (x + after) + tail)[|before|..] == x + (after + tail)
  {
  }

  // ---------------------------------------------------------------- sites and their copies

  /** A list of instructions short enough for signed displacements inside it. */
  predicate Site(ins: seq<seq<byte>>)
  {
    AllWhole(ins) && |Flatten(ins)| < 0x8000_0000
  }

  /** The copies CopyTrampolineStub makes of a site. */
  function Copies(ins: seq<seq<byte>>, src: word, dst: word): (copies: seq<seq<byte>>)
    requires Site(ins)
    ensures |copies| == |ins|
  {
    Stub(ins, src, dst, |Flatten(ins)|, 0)
  }

  /** Where branch `k` of the site goes, as an address and as seen from the site. */
  function Destination(ins: seq<seq<byte>>, src: word, k: nat): word
    requires k < |ins| && FormOf(ins[k]).Relative?
  {
    TargetOf(ins[k], Wrap(src + Offset(ins, k)))
  }

  function PlaceInSite(ins: seq<seq<byte>>, src: word, k: nat): Place
    requires k < |ins| && FormOf(ins[k]).Relative?
  {
    PlaceOf(|Flatten(ins)|, src, Offset(ins, k), Destination(ins, src, k))
  }

  predicate LeavesSite(ins: seq<seq<byte>>, src: word, k: nat)
    requires k < |ins|
  {
    FormOf(ins[k]).Relative? && PlaceInSite(ins, src, k).Beyond?
  }

  /** The copy of instruction `k` is longer than the instruction: a short branch that leaves. */
  predicate Widens(ins: seq<seq<byte>>, src: word, k: nat)
    requires k < |ins|
  {
    |ins[k]| == 2 && LeavesSite(ins, src, k)
  }

  /** The copier's signed comparisons against the bytes before and after decide exactly whether
      the branch leaves the site. */
  lemma TestIsExact(size: nat, base: word, at: nat, length: nat, disp: int)
    requires at <= size < 0x8000_0000
    ensures var place := PlaceOf(size, base, at, Wrap(Wrap(base + at) + length + disp));
            && (Leaves(length, disp, size - at, at) <==> place.Beyond?)
            && (place.Within? ==> place.at == Wrap(at + length + disp))
    ensures var t := Wrap(Wrap(Wrap(base + at) + length + disp) - base);
            Leaves(length, disp, size - at, at) <==> t >= size || (t == 0 && at > 0)
  {
    hide Leaves, Wrap;
    SeenFrom(base, at, length + disp);
    SignedTest(size, at, length + disp);
    assert Wrap(base + at) + length + disp == Wrap(base + at) + (length + disp);
    LeavesUnfolded(length, disp, size - at, at);
  }

  lemma LeavesUnfolded(length: nat, disp: int, forward: word, backward: word)
    ensures var v := SignedWord(Wrap(length + disp));
            Leaves(length, disp, forward, backward) == if v < 0 then Wrap(-v) >= backward else v >= forward
  {
  }

  lemma SeenFrom(base: word, at: nat, d: int)
    ensures Wrap(Wrap(Wrap(base + at) + d) - base) == Wrap(at + d)
  {
    hide Wrap;
    WrapSum(base + at, d);
    var back: int := base;
    WrapSum(base + at + d, -back);
    assert base + at + d + -back == at + d;
  }

  lemma SignedTest(size: nat, at: nat, d: int)
    requires at <= size < 0x8000_0000
    ensures var v := SignedWord(Wrap(d));
            var t := Wrap(at + d);
            (if v < 0 then Wrap(-v) >= at else v >= size - at) <==> !(t < size && (t > 0 || at == 0))
  {
    var v := SignedWord(Wrap(d));
    assert Wrap(at + d) == Wrap(at + v) by {
      hide Wrap;
      WrapSum(d, at);
      WrapSum(v, at);
    }
    if v < 0 {
      assert Wrap(-v) == -v;
      assert Wrap(at + v) == if at + v >= 0 then at + v else at + v + WORD_LIMIT;
    } else {
      assert Wrap(at + v) == at + v;
    }
  }

  /** Each copy, by index: made at its own source and target address, and with the bytes after
      and before it adding up to the site. */
  lemma {:induction false} StubAt(ins: seq<seq<byte>>, src: word, dst: word, forward: word, backward: word, k: nat)
    requires k < |ins|
    ensures var copies := Stub(ins, src, dst, forward, backward);
            copies[k] == Copy(ins[k], Wrap(src + Offset(ins, k)), Wrap(dst + Offset(copies, k)),
                              Wrap(forward - Offset(ins, k)), Wrap(backward + Offset(ins, k)))
  {
    hide Copy, Wrap;
    var copies := Stub(ins, src, dst, forward, backward);
    if k == 0 {
      assert ins[..0] == [] && copies[..0] == [];
      WrapWord(src); WrapWord(dst); WrapWord(forward); WrapWord(backward);
    } else {
      var n: int, m: int := |ins[0]|, |copies[0]|;
      var rest := Stub(ins[1..], Wrap(src + n), Wrap(dst + m), Wrap(forward - n), Wrap(backward + n));
      assert copies[1..] == rest;
      StubAt(ins[1..], Wrap(src + n), Wrap(dst + m), Wrap(forward - n), Wrap(backward + n), k - 1);
      OffsetCons(ins, k);
      OffsetCons(copies, k);
      var more: int := Offset(ins[1..], k - 1);
      WrapSum(src + n, more);
      WrapSum(dst + m, Offset(rest, k - 1));
      WrapSum(forward - n, -more);
      WrapSum(backward + n, more);
    }
  }

  lemma WrapInside(size: nat, at: nat)
    requires at <= size < WORD_LIMIT
    ensures Wrap(size - at) == size - at && Wrap(0 + at) == at && Wrap(size) == size
  {
  }

  /** Instruction `k` of the stub: one instruction; for a branch out of the site the same branch
      to the same address, otherwise the same bytes; and longer exactly when it widens. */
  lemma CopyAt(ins: seq<seq<byte>>, src: word, dst: word, k: nat)
    requires Site(ins) && k < |ins|
    ensures var copies := Copies(ins, src, dst);
            && Whole(copies[k])
            && |copies[k]| >= |ins[k]|
            && (|copies[k]| > |ins[k]| <==> Widens(ins, src, k))
            && (if LeavesSite(ins, src, k)
                then FormOf(copies[k]).Relative? && FormOf(copies[k]).branch == FormOf(ins[k]).branch
                     && TargetOf(copies[k], Wrap(dst + Offset(copies, k))) == Destination(ins, src, k)
                else copies[k] == ins[k])
  {
    hide Decode, Copy, FormOf, Leaves, PlaceOf, Wrap;
    var copies := Copies(ins, src, dst);
    var size, at := |Flatten(ins)|, Offset(ins, k);
    OffsetStep(ins, k);
    StubAt(ins, src, dst, size, 0, k);
    var from, to := Wrap(src + at), Wrap(dst + Offset(copies, k));
    WrapInside(size, at);
    CopyKeepsMeaning(ins[k], from, to, size - at, at);
    CopyGrowth(ins[k], from, to, size - at, at);
    if FormOf(ins[k]).Relative? {
      TestIsExact(size, src, at, |ins[k]|, FormOf(ins[k]).disp);
    }
  }

  /** Of the first `k` instructions, the two-byte branches that leave the site: the conditional
      ones, or the others. */
  function ShortLeaving(ins: seq<seq<byte>>, src: word, k: nat, conditional: bool): nat
    requires k <= |ins|
  {
    if k == 0 then 0
    else ShortLeaving(ins, src, k - 1, conditional)
         + if Widens(ins, src, k - 1) && FormOf(ins[k - 1]).branch.Jcc? == conditional then 1 else 0
  }

  lemma CopyGrows(ins: seq<seq<byte>>, src: word, dst: word, k: nat)
    requires Site(ins) && k < |ins|
    ensures |Copies(ins, src, dst)[k]|
         == |ins[k]| + if !Widens(ins, src, k) then 0 else if FormOf(ins[k]).branch.Jcc? then 4 else 3
  {
    hide Decode, Copy, FormOf, Leaves, PlaceOf, Wrap;
    var size, at := |Flatten(ins)|, Offset(ins, k);
    OffsetStep(ins, k);
    StubAt(ins, src, dst, size, 0, k);
    WrapInside(size, at);
    CopySize(ins[k], Wrap(src + at), Wrap(dst + Offset(Copies(ins, src, dst), k)), size - at, at);
    if FormOf(ins[k]).Relative? {
      TestIsExact(size, src, at, |ins[k]|, FormOf(ins[k]).disp);
    }
  }

  lemma {:induction false} LagCounts(ins: seq<seq<byte>>, src: word, dst: word, k: nat)
    requires Site(ins) && k <= |ins|
    ensures Offset(Copies(ins, src, dst), k)
         == Offset(ins, k) + 4 * ShortLeaving(ins, src, k, true) + 3 * ShortLeaving(ins, src, k, false)
  {
    hide Decode, Copy, FormOf, Widens, Stub, Flatten;
    var copies := Copies(ins, src, dst);
    if k == 0 {
      StartsAtZero(ins);
      StartsAtZero(copies);
    } else {
      LagCounts(ins, src, dst, k - 1);
      CopyGrows(ins, src, dst, k - 1);
      OffsetStep(ins, k - 1);
      OffsetStep(copies, k - 1);
    }
  }

  /** What a stub takes more room than its site: four bytes for every two-byte jcc whose destination
      lies outside the site, three for every two-byte jmp. */
  lemma GrowthCounts(ins: seq<seq<byte>>, src: word)
    requires Site(ins)
    ensures Growth(ins, |Flatten(ins)|, 0)
         == 4 * ShortLeaving(ins, src, |ins|, true) + 3 * ShortLeaving(ins, src, |ins|, false)
  {
    hide Decode, Copy, FormOf, Widens, Flatten, Growth, ShortLeaving;
    LagCounts(ins, src, 0, |ins|);
    StubLength(ins, src, 0, |Flatten(ins)|, 0);
    WholeLists(ins);
    WholeLists(Copies(ins, src, 0));
  }

  /** The stub told without the copier's own terms. A relative branch leaves the site when its
      destination lies outside, or on the first byte as seen from further down. Its copy is then the
      same branch, of the same condition, in the form with four bytes of displacement, and goes where
      it went; all other instructions are copied byte for byte. */
  lemma StubInBytes(ins: seq<seq<byte>>, src: word, dst: word, k: nat)
    requires Site(ins) && k < |ins|
    ensures var copies := Copies(ins, src, dst);
            var x, y := ins[k], copies[k];
            var at, at' := Offset(ins, k), Offset(copies, k);
            var control := ControlOf(x, Wrap(src + at));
            var t := if control.Plain? then 0 else Wrap(Target(control) - src);
            if control.Plain? || (t < |Flatten(ins)| && (t > 0 || at == 0)) then y == x
            else
              && ControlOf(y, Wrap(dst + at')) == control
              && |y| == (if control.JumpIf? then 6 else 5)
              && (control.JumpIf? ==> y[0] == 0x0F && y[1] == 0x80 + control.cc)
              && (control.JumpTo? ==> y[0] == 0xE9) && (control.CallTo? ==> y[0] == 0xE8)
  {
    hide Decode, Whole, Copy, FormOf, Leaves, PlaceOf, Wrap, Flatten, Stub, ControlOf, TargetOf;
    var copies := Copies(ins, src, dst);
    var size, at := |Flatten(ins)|, Offset(ins, k);
    var from, to := Wrap(src + at), Wrap(dst + Offset(copies, k));
    CopyAt(ins, src, dst, k);
    SiteIsWhole(ins, src, dst, k);
    FormIsControl(ins[k], from);
    FormIsControl(copies[k], to);
    if FormOf(ins[k]).Relative? {
      OffsetStep(ins, k);
      LeavesByAddress(ins, src, k);
      if LeavesSite(ins, src, k) {
        StubAt(ins, src, dst, size, 0, k);
        WrapInside(size, at);
        TestIsExact(size, src, at, |ins[k]|, FormOf(ins[k]).disp);
        LeavesIsBeyond(ins, src, k);
        CopyIsLong(ins[k], from, to, size - at, at);
        ControlBytes(copies[k], to);
      }
    }
  }

  lemma LeavesByAddress(ins: seq<seq<byte>>, src: word, k: nat)
    requires Site(ins) && k < |ins| && FormOf(ins[k]).Relative?
    ensures var t := Wrap(TargetOf(ins[k], Wrap(src + Offset(ins, k))) - src);
            LeavesSite(ins, src, k) <==> !(t < |Flatten(ins)| && (t > 0 || Offset(ins, k) == 0))
  {
    hide FormOf, Wrap, Flatten, TargetOf, Offset;
  }

  lemma LeavesIsBeyond(ins: seq<seq<byte>>, src: word, k: nat)
    requires Site(ins) && k < |ins| && FormOf(ins[k]).Relative?
    ensures LeavesSite(ins, src, k)
         <==> PlaceOf(|Flatten(ins)|, src, Offset(ins, k),
                      Wrap(Wrap(src + Offset(ins, k)) + |ins[k]| + FormOf(ins[k]).disp)).Beyond?
  {
    hide FormOf, Wrap, Flatten, PlaceOf;
  }

  lemma CopyIsLong(ins: seq<byte>, src: word, dst: word, forward: word, backward: word)
    requires Whole(ins)
    ensures Rewritten(ins, forward, backward) ==> |Copy(ins, src, dst, forward, backward)| >= 5
  {
    hide Whole, FormOf, Leaves, Wrap, TargetOf;
    CopyKeepsMeaning(ins, src, dst, forward, backward);
  }

  /** The opcode of a branch with four bytes of displacement. */
  lemma ControlBytes(ins: seq<byte>, at: word)
    requires |ins| >= 5
    ensures var control := ControlOf(ins, at);
            && (control.JumpIf? ==> |ins| == 6 && ins[0] == 0x0F && ins[1] == 0x80 + control.cc)
            && (control.JumpTo? ==> |ins| == 5 && ins[0] == 0xE9)
            && (control.CallTo? ==> |ins| == 5 && ins[0] == 0xE8)
  {
    hide Wrap, Word4;
  }

  // ---------------------------------------------------------------- branches inside the site

  /** Branch `k` stays in the site and goes to the start of instruction `j`. */
  predicate GoesTo(ins: seq<seq<byte>>, src: word, k: nat, j: nat)
    requires k < |ins| && j < |ins|
  {
    FormOf(ins[k]).Relative? && PlaceInSite(ins, src, k) == Within(Offset(ins, j))
  }

  /** No instruction lying between branch `k` and its target `j` is widened. */
  ghost predicate NothingWidensBetween(ins: seq<seq<byte>>, src: word, k: nat, j: nat)
    requires k < |ins| && j < |ins|
  {
    forall i | (if j <= k then j <= i < k else k < i < j) :: !Widens(ins, src, i)
  }

  /** Where the copy of branch `k`, standing in the stub, lands as an offset in the stub. */
  function LandingInStub(ins: seq<seq<byte>>, src: word, dst: word, k: nat): word
    requires Site(ins) && k < |ins| && FormOf(Copies(ins, src, dst)[k]).Relative?
  {
    var copies := Copies(ins, src, dst);
    Wrap(TargetOf(copies[k], Wrap(dst + Offset(copies, k))) - dst)
  }

  /** Copies lag behind their originals by what was widened before them. */
  lemma {:induction false} LagGrows(ins: seq<seq<byte>>, src: word, dst: word, a: nat, b: nat)
    requires Site(ins) && a <= b <= |ins|
    ensures var copies := Copies(ins, src, dst);
            var lagA, lagB := Offset(copies, a) - Offset(ins, a), Offset(copies, b) - Offset(ins, b);
            && 0 <= lagA <= lagB
            && (lagA == lagB <==> forall i | a <= i < b :: !Widens(ins, src, i))
    decreases b
  {
    hide Decode, Copy, FormOf, Widens, LeavesSite, Stub, Flatten;
    var copies := Copies(ins, src, dst);
    if a < b {
      LagGrows(ins, src, dst, a, b - 1);
      CopyAt(ins, src, dst, b - 1);
      OffsetStep(ins, b - 1);
      OffsetStep(copies, b - 1);
    } else if a > 0 {
      LagGrows(ins, src, dst, a - 1, a - 1);
      CopyAt(ins, src, dst, a - 1);
      OffsetStep(ins, a - 1);
      OffsetStep(copies, a - 1);
    } else {
      StartsAtZero(ins);
      StartsAtZero(copies);
    }
  }

  /** A branch that stays in the site is copied verbatim. Its copy lands on the copy of its
      target exactly when nothing in between was widened. */
  lemma StayingBranchLands(ins: seq<seq<byte>>, src: word, dst: word, k: nat, j: nat)
    requires Site(ins) && k < |ins| && j < |ins| && GoesTo(ins, src, k, j)
    requires |Flatten(Copies(ins, src, dst))| < WORD_LIMIT
    ensures Copies(ins, src, dst)[k] == ins[k]
    ensures LandingInStub(ins, src, dst, k) == Offset(Copies(ins, src, dst), j)
            <==> NothingWidensBetween(ins, src, k, j)
  {
    hide Decode, Copy, FormOf, Stub, Flatten, Wrap;
    var copies := Copies(ins, src, dst);
    CopyAt(ins, src, dst, k);
    var d := |ins[k]| + FormOf(ins[k]).disp;
    OffsetStep(ins, k); OffsetStep(copies, k);
    OffsetStep(ins, j); OffsetStep(copies, j);
    TestIsExact(|Flatten(ins)|, src, Offset(ins, k), |ins[k]|, FormOf(ins[k]).disp);
    assert Offset(ins, j) == Wrap(Offset(ins, k) + d);
    assert LandingInStub(ins, src, dst, k) == Wrap(Offset(copies, k) + d) by { SeenFrom(dst, Offset(copies, k), d); }
    LagGrows(ins, src, dst, k, k);
    LagGrows(ins, src, dst, j, j);
    ShiftedLanding(Offset(ins, k), Offset(ins, j), Offset(copies, k), Offset(copies, j), d);
    assert !Widens(ins, src, k);
    if j <= k {
      LagGrows(ins, src, dst, j, k);
    } else {
      LagGrows(ins, src, dst, k + 1, j);
    }
  }

  lemma ShiftedLanding(from: nat, to: nat, from': nat, to': nat, d: int)
    requires from < 0x8000_0000 && to < 0x8000_0000 && to == Wrap(from + d)
    requires from <= from' < WORD_LIMIT && to <= to' < WORD_LIMIT
    ensures Wrap(from' + d) == to' <==> to' - to == from' - from
  {
    assert Wrap(from' + d) == Wrap(to + (from' - from)) by {
      hide Wrap;
      WrapSum(from + d, from' - from);
      assert from + d + (from' - from) == from' + d;
    }
  }

  /** An instance where it fails: a je over a jne that leaves the site. The jne grows from two
      bytes to six, and the copied je no longer reaches the instruction behind it. */
  lemma WidenedBetweenMissesTarget(src: word, dst: word)
    ensures var ins := JumpOverLeavingBranch();
            && Site(ins) && GoesTo(ins, src, 0, 2)
            && LandingInStub(ins, src, dst, 0) != Offset(Copies(ins, src, dst), 2)
  {
    hide Copy, Stub, Decode, FormOf, Widens, GoesTo, Flatten, Wrap, JumpOverLeavingBranch;
    var ins := JumpOverLeavingBranch();
    ExampleOffsets();
    ExampleIsSite();
    ExampleBranches(src);
    StubGrowth(ins, src, dst, 6, 0);
    StayingBranchLands(ins, src, dst, 0, 2);
  }

  lemma ExampleBranches(src: word)
    ensures var ins := JumpOverLeavingBranch();
            |ins| == 4 && FormOf(ins[0]).Relative? && Widens(ins, src, 1) && GoesTo(ins, src, 0, 2)
  {
    hide Decode, Flatten, Wrap, Offset;
    ExampleOffsets();
    SeenFrom(src, 2, 0x42);
    SeenFrom(src, 0, 4);
    WrapInside(0x44, 0x44);
    WrapInside(4, 4);
  }

  function JumpOverLeavingBranch(): seq<seq<byte>>
  {
    [[0x74, 0x02], [0x75, 0x40], [0x90], [0x90]]
  }

  lemma ExampleOffsets()
    ensures var ins := JumpOverLeavingBranch();
            && Offset(ins, 0) == 0 && Offset(ins, 1) == 2 && Offset(ins, 2) == 4 && Offset(ins, 3) == 5
            && |Flatten(ins)| == 6
  {
    var ins := JumpOverLeavingBranch();
    StartsAtZero(ins);
    OffsetStep(ins, 0); OffsetStep(ins, 1); OffsetStep(ins, 2); OffsetStep(ins, 3);
  }

  lemma ExampleIsSite()
    ensures Site(JumpOverLeavingBranch()) && ShortInstructions(JumpOverLeavingBranch())
  {
    var ins := JumpOverLeavingBranch();
    ExampleOffsets();
    BranchLength(ins[0]);
    BranchLength(ins[1]);
    var nop: seq<byte> := [0x90];
    assert nop[0..] == nop && nop[..0] == [];
    assert Whole(nop);
  }

  // ---------------------------------------------------------------- the simulation

  /** What a site must satisfy for its stub at `dst`, followed by `tail`, to stand in for it:
      branches that stay in the site go to instruction starts with nothing widened on the way,
      and branches that leave do not run into the stub itself. */
  ghost predicate Relocatable(ins: seq<seq<byte>>, src: word, dst: word, tail: seq<byte>)
  {
    && Site(ins)
    && |Flatten(Copies(ins, src, dst)) + tail| < WORD_LIMIT
    && (forall k | 0 <= k < |ins| && FormOf(ins[k]).Relative? ::
          if LeavesSite(ins, src, k)
          then Wrap(Destination(ins, src, k) - dst) >= |Flatten(Copies(ins, src, dst)) + tail|
          else exists j | 0 <= j < |ins| :: GoesTo(ins, src, k, j) && NothingWidensBetween(ins, src, k, j))
  }

  /** A site without branches is copied byte for byte, and its stub can stand in for it anywhere. */
  lemma StraightSiteIsRelocatable(ins: seq<seq<byte>>, src: word, dst: word, tail: seq<byte>)
    requires Site(ins) && |Flatten(ins)| + |tail| < WORD_LIMIT
    requires forall k | 0 <= k < |ins| :: FormOf(ins[k]).Verbatim?
    ensures Copies(ins, src, dst) == ins && Relocatable(ins, src, dst, tail)
  {
    hide Decode, Copy, FormOf, Stub, Flatten, Whole, Wrap;
    forall k | 0 <= k < |ins| ensures Copies(ins, src, dst)[k] == ins[k] {
      CopyAt(ins, src, dst, k);
    }
  }

  /** In the states `ok` describes, the instruction does the same wherever it stands. */
  ghost predicate PositionFree<S(!new)>(cpu: Cpu<S>, ok: S -> bool, ins: seq<byte>)
  {
    forall a, b, s | ok(s) :: cpu.exec(a, ins, s) == cpu.exec(b, ins, s)
  }

  ghost predicate AllPositionFree<S(!new)>(cpu: Cpu<S>, ok: S -> bool, ins: seq<seq<byte>>)
  {
    forall i | 0 <= i < |ins| && FormOf(ins[i]).Verbatim? :: PositionFree(cpu, ok, ins[i])
  }

  /** The tail is one instruction that in the states `ok` describes sends control to `to`, as the
      jump back does while the cell it reads holds that address. */
  ghost predicate JumpsTo<S(!new)>(cpu: Cpu<S>, ok: S -> bool, tail: seq<byte>, to: word)
  {
    && First(tail) != [] && FormOf(First(tail)).Verbatim?
    && forall a, s | ok(s) :: cpu.exec(a, First(tail), s) == Jumps(to, s)
  }

  /** Every state in which a run of at most `fuel` steps executes an instruction of `code`, and
      the one in which it runs off the end, is as `ok` says. */
  ghost predicate Throughout<S>(cpu: Cpu<S>, ok: S -> bool, code: seq<byte>, base: word, at: nat, s: S, fuel: nat)
    decreases fuel
  {
    && ok(s)
    && (fuel > 0 && Step(cpu, code, base, at, s).Running? ==>
          var Running(at', s') := Step(cpu, code, base, at, s);
          Throughout(cpu, ok, code, base, at', s', fuel - 1))
  }

  /** The instruction leads from such states to such states. */
  ghost predicate Keeps<S(!new)>(cpu: Cpu<S>, ok: S -> bool, ins: seq<byte>)
  {
    forall a, s | ok(s) :: ok(cpu.exec(a, ins, s).s)
  }

  /** The same point of the program in the site and in the stub. */
  ghost predicate SamePoint(ins: seq<seq<byte>>, copies: seq<seq<byte>>, at: nat, at': nat)
  {
    exists k: nat | k <= |ins| && k <= |copies| :: at == Offset(ins, k) && at' == Offset(copies, k)
  }

  ghost predicate SamePlace(ins: seq<seq<byte>>, copies: seq<seq<byte>>, p: Place, p': Place)
  {
    if p.Within? && p'.Within? then SamePoint(ins, copies, p.at, p'.at) else p == p'
  }

  /** Equal states, at the same point; the same exit; or a call to the same place that will
      resume at the same point. */
  ghost predicate Matches<S>(ins: seq<seq<byte>>, copies: seq<seq<byte>>, a: Status<S>, b: Status<S>)
  {
    match (a, b)
    case (Running(at, s), Running(at', s')) => s == s' && SamePoint(ins, copies, at, at')
    case (Left(to, s), Left(to', s')) => s == s' && to == to'
    case (Calling(p, resume, s), Calling(p', resume', s')) =>
      s == s' && SamePlace(ins, copies, p, p') && SamePoint(ins, copies, resume, resume')
    case _ => false
  }

  /** A branch and its copy go to the same place. */
  lemma BranchesAgree(ins: seq<seq<byte>>, src: word, dst: word, tail: seq<byte>, k: nat)
    requires Relocatable(ins, src, dst, tail) && k < |ins| && FormOf(ins[k]).Relative?
    ensures var copies := Copies(ins, src, dst);
            var at := Offset(copies, k);
            && FormOf(copies[k]).Relative? && FormOf(copies[k]).branch == FormOf(ins[k]).branch
            && SamePlace(ins, copies, PlaceInSite(ins, src, k),
                         PlaceOf(|Flatten(copies) + tail|, dst, at, TargetOf(copies[k], Wrap(dst + at))))
  {
    hide Decode, Copy, FormOf, Stub, Flatten, Wrap;
    var copies := Copies(ins, src, dst);
    CopyAt(ins, src, dst, k);
    if !LeavesSite(ins, src, k) {
      var j: nat :| j < |ins| && GoesTo(ins, src, k, j) && NothingWidensBetween(ins, src, k, j);
      StayingBranchLands(ins, src, dst, k, j);
      OffsetStep(copies, j);
      CopyAt(ins, src, dst, j);
      WholeStandsAlone(ins[j], []);
      StartsAtZero(copies);
      StartsAtZero(ins);
      if j > 0 {
        PositiveOffset(ins, j);
        LagGrows(ins, src, dst, j, j);
      } else {
        assert k == 0 by { if k > 0 { PositiveOffset(ins, k); } }
      }
      assert SamePoint(ins, copies, Offset(ins, j), Offset(copies, j));
    }
  }

  lemma RelocatableIsSite(ins: seq<seq<byte>>, src: word, dst: word, tail: seq<byte>)
    requires Relocatable(ins, src, dst, tail)
    ensures Site(ins)
  {
  }

  lemma FollowAgrees<S>(cpu: Cpu<S>, ins: seq<seq<byte>>, copies: seq<seq<byte>>, branch: Branch,
                        place: Place, place': Place, next: nat, next': nat, s: S)
    requires SamePlace(ins, copies, place, place') && SamePoint(ins, copies, next, next')
    ensures Matches(ins, copies, Follow(cpu, branch, place, next, s), Follow(cpu, branch, place', next', s))
  {
    hide SamePoint;
  }

  lemma PerformBranch<S>(cpu: Cpu<S>, ins: seq<byte>, size: nat, base: word, at: nat, s: S)
    requires Whole(ins) && FormOf(ins).Relative?
    ensures Perform(cpu, ins, size, base, at, s)
         == Follow(cpu, FormOf(ins).branch, PlaceOf(size, base, at, TargetOf(ins, Wrap(base + at))), at + |ins|, s)
  {
    hide Whole, FormOf, TargetOf, ControlOf, PlaceOf;
    FormIsControl(ins, Wrap(base + at));
  }

  lemma PerformPlain<S>(cpu: Cpu<S>, ins: seq<byte>, size: nat, base: word, at: nat, s: S)
    requires Whole(ins) && FormOf(ins).Verbatim?
    ensures Perform(cpu, ins, size, base, at, s)
         == match cpu.exec(Wrap(base + at), ins, s)
            case Falls(s') => Running(at + |ins|, s')
            case Jumps(to, s') => Left(to, s')
  {
    hide Whole, FormOf, TargetOf, ControlOf, PlaceOf;
    FormIsControl(ins, Wrap(base + at));
  }

  lemma SiteIsWhole(ins: seq<seq<byte>>, src: word, dst: word, k: nat)
    requires Site(ins) && k < |ins|
    ensures Whole(ins[k]) && Whole(Copies(ins, src, dst)[k])
  {
    hide Whole, Stub, Flatten;
    CopyAt(ins, src, dst, k);
  }

  /** A branch and its copy do the same. */
  lemma BranchStepAgrees<S(!new)>(cpu: Cpu<S>, ins: seq<seq<byte>>, src: word, dst: word, tail: seq<byte>, k: nat, s: S)
    requires Relocatable(ins, src, dst, tail) && k < |ins| && FormOf(ins[k]).Relative?
    ensures var copies := Copies(ins, src, dst);
            Matches(ins, copies, Perform(cpu, ins[k], |Flatten(ins)|, src, Offset(ins, k), s),
                                 Perform(cpu, copies[k], |Flatten(copies) + tail|, dst, Offset(copies, k), s))
  {
    hide Relocatable, Site, FormOf, Stub, Flatten, Wrap, SamePoint, SamePlace, PlaceOf, Offset, Matches, Follow,
         TargetOf, Perform, Whole;
    RelocatableIsSite(ins, src, dst, tail);
    var copies := Copies(ins, src, dst);
    var at := Offset(copies, k);
    BranchesAgree(ins, src, dst, tail, k);
    SiteIsWhole(ins, src, dst, k);
    PerformBranch(cpu, ins[k], |Flatten(ins)|, src, Offset(ins, k), s);
    PerformBranch(cpu, copies[k], |Flatten(copies) + tail|, dst, at, s);
    NextPoint(ins, copies, k);
    FollowAgrees(cpu, ins, copies, FormOf(ins[k]).branch, PlaceInSite(ins, src, k),
                 PlaceOf(|Flatten(copies) + tail|, dst, at, TargetOf(copies[k], Wrap(dst + at))),
                 Offset(ins, k) + |ins[k]|, at + |copies[k]|, s);
  }

  /** So do any other instruction and its copy. */
  lemma PlainStepAgrees<S(!new)>(cpu: Cpu<S>, ok: S -> bool, ins: seq<seq<byte>>, src: word, dst: word, tail: seq<byte>,
                                 k: nat, s: S)
    requires Relocatable(ins, src, dst, tail) && k < |ins| && ok(s)
    requires FormOf(ins[k]).Verbatim? && PositionFree(cpu, ok, ins[k])
    ensures var copies := Copies(ins, src, dst);
            Matches(ins, copies, Perform(cpu, ins[k], |Flatten(ins)|, src, Offset(ins, k), s),
                                 Perform(cpu, copies[k], |Flatten(copies) + tail|, dst, Offset(copies, k), s))
  {
    hide Relocatable, Site, FormOf, Stub, Flatten, Wrap, SamePoint, PlaceOf, Offset, Whole, Perform;
    RelocatableIsSite(ins, src, dst, tail);
    CopyAt(ins, src, dst, k);
    SiteIsWhole(ins, src, dst, k);
    var copies := Copies(ins, src, dst);
    PerformPlain(cpu, ins[k], |Flatten(ins)|, src, Offset(ins, k), s);
    PerformPlain(cpu, copies[k], |Flatten(copies) + tail|, dst, Offset(copies, k), s);
    NextPoint(ins, Copies(ins, src, dst), k);
  }

  /** Fetching at instruction `k` of the site, and at its copy in the stub. */
  lemma FetchBoth(ins: seq<seq<byte>>, src: word, dst: word, tail: seq<byte>, k: nat)
    requires Site(ins) && k < |ins|
    ensures var copies := Copies(ins, src, dst);
            && Offset(ins, k) < |Flatten(ins)| && First(Flatten(ins)[Offset(ins, k)..]) == ins[k]
            && Offset(copies, k) < |Flatten(copies) + tail|
            && First((Flatten(copies) + tail)[Offset(copies, k)..]) == copies[k]
  {
    hide Decode, Copy, Stub, First, LeavesSite, Widens;
    var copies := Copies(ins, src, dst);
    FetchAt(ins, [], k);
    assert Flatten(ins) + [] == Flatten(ins);
    forall i | 0 <= i < |copies| ensures Whole(copies[i]) { CopyAt(ins, src, dst, i); }
    FetchAt(copies, tail, k);
  }

  /** Behind the last instruction the site runs on and the stub jumps back: to one address. */
  lemma EndStepAgrees<S(!new)>(cpu: Cpu<S>, ok: S -> bool, ins: seq<seq<byte>>, copies: seq<seq<byte>>, src: word,
                               dst: word, tail: seq<byte>, s: S)
    requires JumpsTo(cpu, ok, tail, Wrap(src + |Flatten(ins)|)) && ok(s)
    ensures Matches(ins, copies, Step(cpu, Flatten(ins), src, Offset(ins, |ins|), s),
                                 Step(cpu, Flatten(copies) + tail, dst, Offset(copies, |copies|), s))
  {
    hide FormOf, Decode, Wrap, SamePoint, Flatten, Perform, First, Whole;
    WholeLists(ins);
    WholeLists(copies);
    assert (Flatten(copies) + tail)[|Flatten(copies)|..] == tail;
    FirstIsWhole(tail);
    PerformPlain(cpu, First(tail), |Flatten(copies) + tail|, dst, Offset(copies, |copies|), s);
  }

  /** One step of the site and one step of the stub, from the same instruction. */
  lemma InnerStepAgrees<S(!new)>(cpu: Cpu<S>, ok: S -> bool, ins: seq<seq<byte>>, src: word, dst: word, tail: seq<byte>,
                                 k: nat, s: S)
    requires Relocatable(ins, src, dst, tail) && k < |ins|
    requires (FormOf(ins[k]).Verbatim? ==> PositionFree(cpu, ok, ins[k])) && ok(s)
    ensures var copies := Copies(ins, src, dst);
            Matches(ins, copies, Step(cpu, Flatten(ins), src, Offset(ins, k), s),
                                 Step(cpu, Flatten(copies) + tail, dst, Offset(copies, k), s))
  {
    hide Relocatable, FormOf, Stub, Wrap, First, Perform, PositionFree, Site, Matches, Offset, Flatten;
    RelocatableIsSite(ins, src, dst, tail);
    FetchBoth(ins, src, dst, tail, k);
    if FormOf(ins[k]).Relative? {
      BranchStepAgrees(cpu, ins, src, dst, tail, k, s);
    } else {
      PlainStepAgrees(cpu, ok, ins, src, dst, tail, k, s);
    }
  }

  /** The same from any point of the site, its end included. */
  lemma OneStepAgrees<S(!new)>(cpu: Cpu<S>, ok: S -> bool, ins: seq<seq<byte>>, src: word, dst: word, tail: seq<byte>,
                               k: nat, s: S)
    requires Relocatable(ins, src, dst, tail) && k <= |ins|
    requires AllPositionFree(cpu, ok, ins) && ok(s)
    requires JumpsTo(cpu, ok, tail, Wrap(src + |Flatten(ins)|))
    ensures var copies := Copies(ins, src, dst);
            Matches(ins, copies, Step(cpu, Flatten(ins), src, Offset(ins, k), s),
                                 Step(cpu, Flatten(copies) + tail, dst, Offset(copies, k), s))
  {
    hide Relocatable, FormOf, Stub, Wrap, Step, PositionFree, JumpsTo, Site, Matches, Offset, Flatten;
    RelocatableIsSite(ins, src, dst, tail);
    if k < |ins| {
      IsPositionFree(cpu, ok, ins, k);
      InnerStepAgrees(cpu, ok, ins, src, dst, tail, k, s);
    } else {
      EndStepAgrees(cpu, ok, ins, Copies(ins, src, dst), src, dst, tail, s);
    }
  }

  lemma NextPoint(ins: seq<seq<byte>>, copies: seq<seq<byte>>, k: nat)
    requires k < |ins| == |copies|
    ensures SamePoint(ins, copies, Offset(ins, k) + |ins[k]|, Offset(copies, k) + |copies[k]|)
  {
    OffsetStep(ins, k);
    OffsetStep(copies, k);
    assert Offset(ins, k + 1) == Offset(ins, k) + |ins[k]|;
  }

  /** The stub with its jump back stands in for the site. From any instruction on, over any number
      of steps, both pass through the same states and leave to the same addresses, on any machine
      and with any description `ok` of states such that throughout the site's run states are as it
      says, and in such states the jump back goes to the end of the site and the instructions that
      are no branches do not depend on where they stand. */
  lemma {:induction false} StubSimulatesSite<S(!new)>(
      cpu: Cpu<S>, ok: S -> bool, ins: seq<seq<byte>>, src: word, dst: word, tail: seq<byte>, k: nat, s: S, fuel: nat)
    requires Relocatable(ins, src, dst, tail) && k <= |ins|
    requires AllPositionFree(cpu, ok, ins) && JumpsTo(cpu, ok, tail, Wrap(src + |Flatten(ins)|))
    requires Throughout(cpu, ok, Flatten(ins), src, Offset(ins, k), s, fuel)
    ensures var copies := Copies(ins, src, dst);
            Matches(ins, copies, Run(cpu, Flatten(ins), src, Offset(ins, k), s, fuel),
                                 Run(cpu, Flatten(copies) + tail, dst, Offset(copies, k), s, fuel))
    decreases fuel
  {
    hide Relocatable, AllPositionFree, JumpsTo, FormOf, Stub, Flatten, Step, Site;
    RelocatableIsSite(ins, src, dst, tail);
    var copies := Copies(ins, src, dst);
    if fuel == 0 {
      assert SamePoint(ins, copies, Offset(ins, k), Offset(copies, k));
    } else {
      OneStepAgrees(cpu, ok, ins, src, dst, tail, k, s);
      var next := Step(cpu, Flatten(ins), src, Offset(ins, k), s);
      if next.Running? {
        var next' := Step(cpu, Flatten(copies) + tail, dst, Offset(copies, k), s);
        var k': nat :| k' <= |ins| && k' <= |copies| && next.at == Offset(ins, k') && next'.at == Offset(copies, k');
        StubSimulatesSite(cpu, ok, ins, src, dst, tail, k', next.s, fuel - 1);
      }
    }
  }

  /** What every instruction of the site keeps holds throughout its run. */
  lemma {:induction false} KeptThroughout<S(!new)>(
      cpu: Cpu<S>, ok: S -> bool, ins: seq<seq<byte>>, src: word, dst: word, tail: seq<byte>, k: nat, s: S, fuel: nat)
    requires Relocatable(ins, src, dst, tail) && k <= |ins| && AllPositionFree(cpu, ok, ins) && ok(s)
    requires forall i | 0 <= i < |ins| && FormOf(ins[i]).Verbatim? :: Keeps(cpu, ok, ins[i])
    ensures Throughout(cpu, ok, Flatten(ins), src, Offset(ins, k), s, fuel)
    decreases fuel
  {
    hide Relocatable, AllPositionFree, FormOf, Stub, Flatten, Step, Site, Keeps;
    RelocatableIsSite(ins, src, dst, tail);
    if fuel > 0 {
      if k == |ins| {
        StepAtEnd(cpu, ins, src, s);
      } else {
        IsPositionFree(cpu, ok, ins, k);
        InnerStepAgrees(cpu, ok, ins, src, dst, tail, k, s);
        var next := Step(cpu, Flatten(ins), src, Offset(ins, k), s);
        if next.Running? {
          StepKeeps(cpu, ok, ins, src, dst, k, s);
          var k': nat :| k' <= |ins| && next.at == Offset(ins, k');
          KeptThroughout(cpu, ok, ins, src, dst, tail, k', next.s, fuel - 1);
        }
      }
    }
  }

  lemma StepKeeps<S(!new)>(cpu: Cpu<S>, ok: S -> bool, ins: seq<seq<byte>>, src: word, dst: word, k: nat, s: S)
    requires Site(ins) && k < |ins| && ok(s)
    requires FormOf(ins[k]).Verbatim? ==> Keeps(cpu, ok, ins[k])
    ensures ok(Step(cpu, Flatten(ins), src, Offset(ins, k), s).s)
  {
    hide FormOf, Stub, Flatten, Site, First, Wrap, PlaceOf, Perform, Whole, TargetOf;
    FetchBoth(ins, src, dst, [], k);
    SiteIsWhole(ins, src, dst, k);
    if FormOf(ins[k]).Relative? {
      PerformBranch(cpu, ins[k], |Flatten(ins)|, src, Offset(ins, k), s);
    } else {
      PerformPlain(cpu, ins[k], |Flatten(ins)|, src, Offset(ins, k), s);
    }
  }

  lemma IsPositionFree<S(!new)>(cpu: Cpu<S>, ok: S -> bool, ins: seq<seq<byte>>, k: nat)
    requires AllPositionFree(cpu, ok, ins) && k < |ins|
    ensures FormOf(ins[k]).Verbatim? ==> PositionFree(cpu, ok, ins[k])
  {
  }

  /** The run of the site came to its end, and the run of the stub to the byte behind the stub. */
  ghost predicate BothRanThrough<S>(ins: seq<seq<byte>>, copies: seq<seq<byte>>, src: word, dst: word,
                                    a: Status<S>, b: Status<S>)
  {
    && a.Left? && a.to == Wrap(src + |Flatten(ins)|)
    && b.Left? && b.to == Wrap(dst + |Flatten(copies)|) && a.s == b.s
  }

  /** Without a jump back the stub does what the site did up to the site's end, and then reaches
      whatever code stands behind the stub in the state in which the site runs on. */
  lemma {:induction false} BareStubSimulatesSite<S(!new)>(
      cpu: Cpu<S>, ok: S -> bool, ins: seq<seq<byte>>, src: word, dst: word, k: nat, s: S, fuel: nat)
    requires Relocatable(ins, src, dst, []) && k <= |ins| && AllPositionFree(cpu, ok, ins)
    requires Throughout(cpu, ok, Flatten(ins), src, Offset(ins, k), s, fuel)
    ensures var copies := Copies(ins, src, dst);
            var a := Run(cpu, Flatten(ins), src, Offset(ins, k), s, fuel);
            var b := Run(cpu, Flatten(copies), dst, Offset(copies, k), s, fuel);
            Matches(ins, copies, a, b) || BothRanThrough(ins, copies, src, dst, a, b)
    decreases fuel
  {
    hide Relocatable, AllPositionFree, FormOf, Stub, Flatten, Step, Site;
    RelocatableIsSite(ins, src, dst, []);
    var copies := Copies(ins, src, dst);
    assert Flatten(copies) + [] == Flatten(copies);
    if fuel == 0 {
      assert SamePoint(ins, copies, Offset(ins, k), Offset(copies, k));
    } else if k == |ins| {
      StepAtEnd(cpu, ins, src, s);
      StepAtEnd(cpu, copies, dst, s);
    } else {
      IsPositionFree(cpu, ok, ins, k);
      InnerStepAgrees(cpu, ok, ins, src, dst, [], k, s);
      var next := Step(cpu, Flatten(ins), src, Offset(ins, k), s);
      if next.Running? {
        var next' := Step(cpu, Flatten(copies), dst, Offset(copies, k), s);
        var k': nat :| k' <= |ins| && k' <= |copies| && next.at == Offset(ins, k') && next'.at == Offset(copies, k');
        BareStubSimulatesSite(cpu, ok, ins, src, dst, k', next.s, fuel - 1);
      }
    }
  }

  lemma StepAtEnd<S>(cpu: Cpu<S>, list: seq<seq<byte>>, base: word, s: S)
    ensures Step(cpu, Flatten(list), base, Offset(list, |list|), s) == Left(Wrap(base + |Flatten(list)|), s)
  {
    hide Wrap, First, Flatten;
    WholeLists(list);
  }
}
