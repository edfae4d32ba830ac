/** Finding the import slot of a function by the hash of its name. */
module ImportTable {
  import opened Words

  type Name = seq<bv8>

  // ---------------------------------------------------------------- the hash

  function Turn(x: bv32): bv32
  {
    x.RotateLeft(13)
  }

  function Sum(x: bv32, y: bv32): bv32
  {
    x ^ y
  }

  function HashStep(hash: bv32, c: bv8): bv32
  {
    Sum(Turn(hash), c as bv32)
  }

  function HashFrom(hash: bv32, name: Name): bv32
    decreases |name|
  {
    if name == [] then hash else HashFrom(HashStep(hash, name[0]), name[1..])
  }

  /** HashAPI of the NUL-terminated string at the start of `text`. */
  method HashAPI(text: seq<bv8>, ghost name: Name) returns (hash: bv32)
    requires 0 !in name && name + [0] <= text
    ensures hash == HashFrom(0, name)
  {
    hash := 0;
    var at := 0;
    while text[at] != 0
      invariant at <= |name| && HashFrom(0, name) == HashFrom(hash, name[at..])
      decreases |name| - at
    {
      assert text[at] == (name + [0])[at];
      hash := HashStep(hash, text[at]);
      at := at + 1;
    }
    assert text[at] == (name + [0])[at];
  }

  /** A rotation and an exclusive-or lose nothing. */
  lemma StepIsInjective(h: bv32, h': bv32, c: bv8)
    ensures HashStep(h, c) == HashStep(h', c) <==> h == h'
  {
  }

  /** Two bytes land in different bits after two steps. */
  lemma TwoBytesShow(h: bv32, a: bv8, b: bv8, a': bv8, b': bv8)
    requires HashStep(HashStep(h, a), b) == HashStep(HashStep(h, a'), b')
    ensures a == a' && b == b'
  {
  }

  lemma OneByteShows(h: bv32, a: bv8, a': bv8)
    requires HashStep(h, a) == HashStep(h, a')
    ensures a == a'
  {
  }

  lemma {:induction false} TailKeepsDifference(h: bv32, h': bv32, name: Name)
    ensures HashFrom(h, name) == HashFrom(h', name) <==> h == h'
    decreases |name|
  {
    hide HashStep;
    if name != [] {
      StepIsInjective(h, h', name[0]);
      TailKeepsDifference(HashStep(h, name[0]), HashStep(h', name[0]), name[1..]);
    }
  }

  /** A value turned left by 13 bits, `k` times. */
  function Turned(x: bv32, k: nat): bv32
    decreases k
  {
    if k == 0 then x else Turned(Turn(x), k - 1)
  }

  /** Every byte of a name turned as often as there are bytes behind it, all together by exclusive-or. */
  function Mixed(name: Name): bv32
  {
    if name == [] then 0 else Sum(Turned(name[0] as bv32, |name| - 1), Mixed(name[1..]))
  }

  lemma {:induction false} TurnedSum(x: bv32, y: bv32, k: nat)
    ensures Turned(Sum(x, y), k) == Sum(Turned(x, k), Turned(y, k))
    decreases k
  {
    hide Turn, Sum;
    if k > 0 {
      TurnOfSum(x, y);
      TurnedSum(Turn(x), Turn(y), k - 1);
    }
  }

  lemma TurnOfSum(x: bv32, y: bv32)
    ensures Turn(Sum(x, y)) == Sum(Turn(x), Turn(y))
  {
  }

  lemma {:induction false} HashIsMixed(h: bv32, name: Name)
    ensures HashFrom(h, name) == Sum(Turned(h, |name|), Mixed(name))
    decreases |name|
  {
    hide Turn, Sum;
    if name == [] {
      NothingAdded(h);
    } else {
      var c, n := name[0] as bv32, |name| - 1;
      HashIsMixed(HashStep(h, name[0]), name[1..]);
      TurnedSum(Turn(h), c, n);
      Regroup(Turned(Turn(h), n), Turned(c, n), Mixed(name[1..]));
    }
  }

  lemma Regroup(x: bv32, y: bv32, z: bv32)
    ensures Sum(Sum(x, y), z) == Sum(x, Sum(y, z))
  {
  }

  /** What HashAPI computes for a name, each byte by its distance from the end alone. */
  lemma HashOfName(name: Name)
    ensures HashFrom(0, name) == Mixed(name)
  {
    hide Turn, Sum;
    HashIsMixed(0, name);
    TurnedNothing(|name|);
    NothingAdded(Mixed(name));
  }

  lemma {:induction false} TurnedNothing(k: nat)
    ensures Turned(0, k) == 0
    decreases k
  {
    if k > 0 {
      TurnedNothing(k - 1);
    }
  }

  lemma NothingAdded(x: bv32)
    ensures Sum(0, x) == x && Sum(x, 0) == x
  {
  }

  /** Names of one length that differ, but only at `p` and the position after it, never share
      a hash. */
  lemma {:induction false} NeighboursNeverCollide(h: bv32, a: Name, b: Name, p: nat)
    requires |a| == |b| && a != b
    requires forall i | 0 <= i < |a| && i != p && i != p + 1 :: a[i] == b[i]
    ensures HashFrom(h, a) != HashFrom(h, b)
    decreases |a|
  {
    hide HashStep;
    assert a != [];
    assert [a[0]] + a[1..] == a && [b[0]] + b[1..] == b;
    if p > 0 {
      NeighboursNeverCollide(HashStep(h, a[0]), a[1..], b[1..], p - 1);
    } else {
      var ha, hb := HashStep(h, a[0]), HashStep(h, b[0]);
      if |a| == 1 {
        if ha == hb {
          OneByteShows(h, a[0], b[0]);
        }
        TailKeepsDifference(ha, hb, a[1..]);
      } else {
        assert [a[1]] + a[2..] == a[1..] && [b[1]] + b[2..] == b[1..];
        assert a[2..] == b[2..];
        assert a[1..][1..] == a[2..] && b[1..][1..] == b[2..];
        if HashStep(ha, a[1]) == HashStep(hb, b[1]) {
          TwoBytesShow(h, a[0], a[1], b[0], b[1]);
        }
        TailKeepsDifference(HashStep(ha, a[1]), HashStep(hb, b[1]), a[2..]);
      }
    }
  }

  /** The hash of "ab". */
  lemma HashOfTwo()
    ensures HashFrom(0, [0x61, 0x62]) == 0xC_2062
  {
    hide HashStep;
    var n2: Name, n1: Name := [0x61, 0x62], [0x62];
    assert n2[1..] == n1 && n1[1..] == [];
    assert HashFrom(0, n2) == HashFrom(HashStep(0, 0x61), n1);
    TwoSteps();
  }

  lemma TwoSteps()
    ensures HashStep(HashStep(0, 0x61), 0x62) == 0xC_2062
  {
  }

  /** Two positions apart they can: the top bits of one byte meet the low bits of the other. */
  lemma TwoApartCanCollide()
    ensures HashFrom(0, [0x61, 0x61, 0x60]) == HashFrom(0, [0x21, 0x61, 0x61])
  {
    HashOfThree(0x61, 0x61, 0x60);
    HashOfThree(0x21, 0x61, 0x61);
  }

  lemma HashOfThree(a: bv8, b: bv8, c: bv8)
    ensures HashFrom(0, [a, b, c]) == HashStep(HashStep(HashStep(0, a), b), c)
  {
    hide HashStep;
    var n3: Name, n2: Name, n1: Name := [a, b, c], [b, c], [c];
    assert n3[1..] == n2 && n2[1..] == n1 && n1[1..] == [];
    assert HashFrom(0, n3) == HashFrom(HashStep(0, a), n2);
    assert HashFrom(HashStep(0, a), n2) == HashFrom(HashStep(HashStep(0, a), b), n1);
  }

  // ---------------------------------------------------------------- the import table

  /** IMAGE_IMPORT_DESCRIPTOR. */
  datatype Descriptor = Descriptor(name: word, firstThunk: word, originalFirstThunk: word)

  /** A loaded image: its import descriptors up to the end of the table, the thunk array at each
      offset up to its null entry, and the string at each address. */
  datatype Image = Image(base: word, sizeOfImage: word, descriptors: seq<Descriptor>,
                         thunks: word -> seq<word>, strings: word -> Name)

  function DllName(image: Image, d: Descriptor): word
  {
    Plus(image.base, d.name)
  }

  function OriginalThunks(image: Image, d: Descriptor): seq<word>
  {
    image.thunks(if d.originalFirstThunk != 0 then d.originalFirstThunk else d.firstThunk)
  }

  predicate EndsTable(d: Descriptor)
  {
    d.name == 0 || d.firstThunk == 0
  }

  /** The tests by which the walk passes over a descriptor. */
  predicate Skipped(image: Image, d: Descriptor)
  {
    var endOfImage := Plus(image.base, image.sizeOfImage);
    || d.firstThunk > image.sizeOfImage
    || image.thunks(d.firstThunk) == []
    || Plus(image.base, if d.originalFirstThunk != 0 then d.originalFirstThunk else d.firstThunk) >= endOfImage
    || DllName(image, d) >= endOfImage
  }

  /** The name a thunk imports by; none for an ordinal. */
  function FunctionName(image: Image, thunk: word): Option<Name>
  {
    if thunk >= 0x8000_0000 || Plus(image.base, thunk + 2) == 0 then None
    else Some(image.strings(Plus(image.base, thunk + 2)))
  }

  predicate Hit(image: Image, thunk: word, hash: bv32)
  {
    match FunctionName(image, thunk)
    case None => false
    case Some(name) => HashFrom(0, name) == hash
  }

  /** The address of import slot `k` of a descriptor. */
  function Slot(image: Image, d: Descriptor, k: nat): word
  {
    Plus(image.base, d.firstThunk + 4 * k)
  }

  // ---------------------------------------------------------------- what the lookup finds

  /** The descriptors whose functions the walk visits. */
  function Visited(image: Image, descriptors: seq<Descriptor>): seq<Descriptor>
  {
    if descriptors == [] || EndsTable(descriptors[0]) then []
    else
      var d := descriptors[0];
      (if Skipped(image, d) || OriginalThunks(image, d) == [] then [] else [d]) + Visited(image, descriptors[1..])
  }

  /** First thunk from `k` on that is a hit. */
  function FirstHit(image: Image, d: Descriptor, hash: bv32, k: nat): (r: Option<nat>)
    requires k <= |OriginalThunks(image, d)|
    ensures r.Some? ==> k <= r.value < |OriginalThunks(image, d)| && Hit(image, OriginalThunks(image, d)[r.value], hash)
    ensures forall i | k <= i < (if r.Some? then r.value else |OriginalThunks(image, d)|) ::
              !Hit(image, OriginalThunks(image, d)[i], hash)
    decreases |OriginalThunks(image, d)| - k
  {
    var thunks := OriginalThunks(image, d);
    if k == |thunks| then None else if Hit(image, thunks[k], hash) then Some(k) else FirstHit(image, d, hash, k + 1)
  }

  /** The slot of the first hit in a list of descriptors. */
  function FirstSlot(image: Image, ds: seq<Descriptor>, hash: bv32): Option<word>
  {
    if ds == [] then None
    else match FirstHit(image, ds[0], hash, 0)
      case Some(k) => Some(Slot(image, ds[0], k))
      case None => FirstSlot(image, ds[1..], hash)
  }

  function FromFirstNamed(image: Image, ds: seq<Descriptor>, same: Name -> bool): seq<Descriptor>
  {
    if ds == [] || same(image.strings(DllName(image, ds[0]))) then ds else FromFirstNamed(image, ds[1..], same)
  }

  /** The descriptors at the front that point to the very same name. */
  function SamePointer(image: Image, ds: seq<Descriptor>, pointer: word): seq<Descriptor>
  {
    if ds == [] || DllName(image, ds[0]) != pointer then [] else [ds[0]] + SamePointer(image, ds[1..], pointer)
  }

  /** Of the visited descriptors, those the lookup searches: all of them without a module name;
      with one, the first whose name compares equal and those right behind it that share its
      name pointer. */
  function Searched(image: Image, ds: seq<Descriptor>, dllName: Option<Name -> bool>): seq<Descriptor>
  {
    match dllName
    case None => ds
    case Some(same) =>
      var rest := FromFirstNamed(image, ds, same);
      if rest == [] then [] else SamePointer(image, rest, DllName(image, rest[0]))
  }

  // ---------------------------------------------------------------- the walk

  datatype CallbackStatus = StatusSuccess | ValidateContinue | NotFound | NoMoreMatches

  /** The callback of LookupImportTable for thunk `k` of a descriptor: the new TargetDllName, the
      status, and the slot if it has found it. `dllName` stands for the module name asked for, as
      the case-insensitive comparison with it. */
  method Callback(image: Image, d: Descriptor, k: nat, dllName: Option<Name -> bool>, hash: bv32, target: Option<word>)
    returns (status: CallbackStatus, target': Option<word>, iatVa: Option<word>)
    requires k < |OriginalThunks(image, d)|
    ensures dllName.Some? && target.Some? && target.value != DllName(image, d) ==>
              status == NotFound && target' == target && iatVa == None
    ensures dllName.Some? && target.None? && !dllName.value(image.strings(DllName(image, d))) ==>
              status == ValidateContinue && target' == target && iatVa == None
    ensures (|| dllName.None? || target == Some(DllName(image, d))
             || (target.None? && dllName.value(image.strings(DllName(image, d))))) ==>
              && target' == (if dllName.Some? then Some(DllName(image, d)) else target)
              && (if Hit(image, OriginalThunks(image, d)[k], hash)
                  then status == NoMoreMatches && iatVa == Some(Slot(image, d, k))
                  else status == StatusSuccess && iatVa == None)
  {
    target' := target;
    iatVa := None;
    if dllName.Some? {
      if target.Some? {
        if target.value != DllName(image, d) { return NotFound, target', iatVa; }
      } else if !dllName.value(image.strings(DllName(image, d))) {
        return ValidateContinue, target', iatVa;
      } else {
        target' := Some(DllName(image, d));
      }
    }
    var functionName := FunctionName(image, OriginalThunks(image, d)[k]);
    if functionName.None? { return StatusSuccess, target', iatVa; }
    if HashFrom(0, functionName.value) == hash {
      return NoMoreMatches, target', Some(Slot(image, d, k));
    }
    return StatusSuccess, target', iatVa;
  }

  /** What the rest of the walk will find once the descriptors up to here are done. */
  function Pending(image: Image, ds: seq<Descriptor>, dllName: Option<Name -> bool>, target: Option<word>)
    : seq<Descriptor>
  {
    if dllName.Some? && target.Some? then SamePointer(image, ds, target.value) else Searched(image, ds, dllName)
  }

  /** The lookup wants the functions of this descriptor, given the name it has settled on. */
  predicate Wanted(image: Image, d: Descriptor, dllName: Option<Name -> bool>, target: Option<word>)
  {
    || dllName.None?
    || if target.Some? then target.value == DllName(image, d) else dllName.value(image.strings(DllName(image, d)))
  }

  function Settled(image: Image, d: Descriptor, dllName: Option<Name -> bool>, target: Option<word>): Option<word>
  {
    if dllName.Some? then Some(DllName(image, d)) else target
  }

  /** One visited descriptor's part in the answer. */
  lemma PendingStep(image: Image, d: Descriptor, rest: seq<Descriptor>, dllName: Option<Name -> bool>,
                    target: Option<word>, hash: bv32)
    requires dllName.None? ==> target.None?
    ensures var now := FirstSlot(image, Pending(image, [d] + rest, dllName, target), hash);
            var settled := Settled(image, d, dllName, target);
            if Wanted(image, d, dllName, target) then
              now == match FirstHit(image, d, hash, 0)
                     case Some(k) => Some(Slot(image, d, k))
                     case None => FirstSlot(image, Pending(image, rest, dllName, settled), hash)
            else if target.Some? then now == None
            else now == FirstSlot(image, Pending(image, rest, dllName, target), hash)
  {
    hide FirstHit, Slot, DllName;
    var ds := [d] + rest;
    assert ds[1..] == rest;
    if dllName.Some? {
      var more := SamePointer(image, rest, DllName(image, d));
      assert ([d] + more)[1..] == more;
    }
  }

  /** The inner loop of the walk over one descriptor. `stop` says that the walk ends here. */
  method WalkThunks(image: Image, d: Descriptor, dllName: Option<Name -> bool>, hash: bv32, target: Option<word>)
    returns (target': Option<word>, stop: bool, iatVa: Option<word>)
    requires OriginalThunks(image, d) != []
    ensures if Wanted(image, d, dllName, target) then
              var hit := FirstHit(image, d, hash, 0);
              && target' == Settled(image, d, dllName, target) && stop == hit.Some?
              && iatVa == if hit.Some? then Some(Slot(image, d, hit.value)) else None
            else target' == target && stop == target.Some? && iatVa == None
  {
    hide Hit, Slot, FunctionName, DllName;
    target' := target;
    var k := 0;
    var thunks := OriginalThunks(image, d);
    while k < |thunks|
      invariant 0 <= k <= |thunks|
      invariant if k == 0 then target' == target
                else Wanted(image, d, dllName, target) && target' == Settled(image, d, dllName, target)
      invariant FirstHit(image, d, hash, 0) == FirstHit(image, d, hash, k)
    {
      var status;
      status, target', iatVa := Callback(image, d, k, dllName, hash, target');
      if status == ValidateContinue {
        return target', false, None;
      }
      if status != StatusSuccess {
        return target', true, iatVa;
      }
      k := k + 1;
    }
    return target', false, None;
  }

  /** LookupImportTable with its walk: the slot paired with the first function of that hash in
      the searched descriptors, or none where the source returns its invalid marker. */
  method LookupImportTable(image: Image, dllName: Option<Name -> bool>, hash: bv32) returns (iatVa: Option<word>)
    ensures iatVa == FirstSlot(image, Searched(image, Visited(image, image.descriptors), dllName), hash)
  {
    hide Hit, Slot, FunctionName, Skipped, DllName, Searched, FirstSlot, FirstHit, Wanted, Settled, Pending;
    var at := 0;
    var target: Option<word> := None;
    ghost var answer := FirstSlot(image, Searched(image, Visited(image, image.descriptors), dllName), hash);
    PendingAtStart(image, Visited(image, image.descriptors), dllName);
    assert image.descriptors[0..] == image.descriptors;
    while at < |image.descriptors| && !EndsTable(image.descriptors[at])
      invariant at <= |image.descriptors| && (dllName.None? ==> target.None?)
      invariant var ahead := Visited(image, image.descriptors[at..]);
                answer == FirstSlot(image, Pending(image, ahead, dllName, target), hash)
      decreases |image.descriptors| - at
    {
      var d := image.descriptors[at];
      ghost var rest := Visited(image, image.descriptors[at + 1..]);
      assert image.descriptors[at..][1..] == image.descriptors[at + 1..];
      at := at + 1;
      if Skipped(image, d) || OriginalThunks(image, d) == [] {
        assert [] + rest == rest;
        continue;
      }
      PendingStep(image, d, rest, dllName, target, hash);
      SettledOnlyByName(image, d, dllName, target);
      var stop, found;
      target, stop, found := WalkThunks(image, d, dllName, hash, target);
      if stop {
        return found;
      }
    }
    NothingPending(image, dllName, target, hash);
    return None;
  }

  lemma SettledOnlyByName(image: Image, d: Descriptor, dllName: Option<Name -> bool>, target: Option<word>)
    ensures dllName.None? ==> Settled(image, d, dllName, target) == target
  {
  }

  lemma PendingAtStart(image: Image, ds: seq<Descriptor>, dllName: Option<Name -> bool>)
    ensures Pending(image, ds, dllName, None) == Searched(image, ds, dllName)
  {
  }

  lemma NothingPending(image: Image, dllName: Option<Name -> bool>, target: Option<word>, hash: bv32)
    ensures FirstSlot(image, Pending(image, [], dllName, target), hash) == None
  {
  }

  // ---------------------------------------------------------------- distinct names

  /** When no two visited descriptors point to the same name, a lookup with a module name searches
      just one: the first whose name compares equal. */
  lemma {:induction false} OneIsSearched(image: Image, ds: seq<Descriptor>, same: Name -> bool)
    requires forall i, j | 0 <= i < j < |ds| :: DllName(image, ds[i]) != DllName(image, ds[j])
    ensures var searched := Searched(image, ds, Some(same));
            if forall i | 0 <= i < |ds| :: !same(image.strings(DllName(image, ds[i]))) then searched == []
            else exists i | 0 <= i < |ds| :: searched == [ds[i]] && same(image.strings(DllName(image, ds[i])))
                   && forall j | 0 <= j < i :: !same(image.strings(DllName(image, ds[j])))
  {
    hide DllName;
    if ds != [] {
      if same(image.strings(DllName(image, ds[0]))) {
        if |ds| > 1 {
          assert DllName(image, ds[0]) != DllName(image, ds[1]) && ds[1..][0] == ds[1];
        }
        assert SamePointer(image, ds[1..], DllName(image, ds[0])) == [];
        assert SamePointer(image, ds, DllName(image, ds[0])) == [ds[0]];
      } else {
        OneIsSearched(image, ds[1..], same);
        var searched := Searched(image, ds[1..], Some(same));
        if exists i | 0 <= i < |ds| :: same(image.strings(DllName(image, ds[i]))) {
          var i0 :| 0 <= i0 < |ds| && same(image.strings(DllName(image, ds[i0])));
          assert ds[1..][i0 - 1] == ds[i0];
          var i :| 0 <= i < |ds| - 1 && searched == [ds[1..][i]] && same(image.strings(DllName(image, ds[1..][i])))
            && forall j | 0 <= j < i :: !same(image.strings(DllName(image, ds[1..][j])));
          assert ds[i + 1] == ds[1..][i];
          forall j | 0 <= j < i + 1 ensures !same(image.strings(DllName(image, ds[j]))) {
            if j > 0 {
              assert ds[1..][j - 1] == ds[j];
            }
          }
        }
      }
    }
  }
}
