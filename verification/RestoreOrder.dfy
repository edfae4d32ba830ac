/** Restoring all hooks in any order at all: exactly when the original program comes back. */
module RestoreOrder {
  import opened Words
  import opened PatchState

  type Heap = map<word, TrampolineData>

  /** Restoring the record writes at `a`. */
  predicate Writes(data: TrampolineData, a: nat)
  {
    !Idle(data) && Covers(data, a)
  }

  /** The byte it writes there: the one its hook found. */
  function Saved(data: TrampolineData, a: nat): byte
    requires WellFormed(data) && Covers(data, a)
  {
    Original(data)[a - data.source]
  }

  predicate InHeap(list: seq<word>, heap: Heap)
  {
    forall i | 0 <= i < |list| :: list[i] in heap
  }

  /** The first hook of a list whose restoring writes at `a`. */
  function FirstAt(list: seq<word>, heap: Heap, a: nat): (h: Option<word>)
    requires InHeap(list, heap)
    ensures h.Some? ==> h.value in list && Writes(heap[h.value], a)
    decreases |list|
  {
    if list == [] then None
    else
      var last := |list| - 1;
      match FirstAt(list[..last], heap, a)
      case Some(h) => Some(h)
      case None => if Writes(heap[list[last]], a) then Some(list[last]) else None
  }

  lemma {:induction false} FirstAtIsFirst(list: seq<word>, heap: Heap, a: nat, i: nat) returns (j: nat)
    requires InHeap(list, heap) && i < |list| && Writes(heap[list[i]], a)
    ensures FirstAt(list, heap, a).Some? && j <= i && list[j] == FirstAt(list, heap, a).value
    decreases |list|
  {
    hide Writes;
    var last := |list| - 1;
    var init := list[..last];
    if i < last {
      j := FirstAtIsFirst(init, heap, a, i);
    } else if FirstAt(init, heap, a).Some? {
      j :| 0 <= j < last && init[j] == FirstAt(init, heap, a).value;
    } else {
      j := i;
    }
  }

  /** The last one. */
  function LastAt(list: seq<word>, heap: Heap, a: nat): (h: Option<word>)
    requires InHeap(list, heap)
    ensures h.Some? ==> h.value in list && Writes(heap[h.value], a)
  {
    if list == [] then None
    else match LastAt(list[1..], heap, a)
      case Some(h) => Some(h)
      case None => if Writes(heap[list[0]], a) then Some(list[0]) else None
  }

  lemma {:induction false} LastAtIsLast(list: seq<word>, heap: Heap, a: nat, i: nat) returns (j: nat)
    requires InHeap(list, heap) && i < |list| && Writes(heap[list[i]], a)
    ensures LastAt(list, heap, a).Some? && i <= j < |list| && list[j] == LastAt(list, heap, a).value
  {
    hide Writes;
    var rest := list[1..];
    if i > 0 {
      j := LastAtIsLast(rest, heap, a, i - 1);
      j := j + 1;
    } else if LastAt(rest, heap, a).Some? {
      j :| 0 <= j < |rest| && rest[j] == LastAt(rest, heap, a).value;
      j := j + 1;
    } else {
      j := 0;
    }
  }

  /** Memory with the hooks of a list taken out from its front to its end. */
  ghost function TakenOutAll(memory: seq<byte>, order: seq<word>, heap: Heap): (m: seq<byte>)
    requires Backed(order, heap, |memory|)
    ensures |m| == |memory|
    decreases |order|
  {
    if order == [] then memory else TakenOutAll(TakenOut(memory, heap[order[0]]), order[1..], heap)
  }

  lemma TakenOutAt(m: seq<byte>, data: TrampolineData, a: nat)
    requires Sound(data, |m|) && a < |m|
    ensures TakenOut(m, data)[a] == if Writes(data, a) then Saved(data, a) else m[a]
  {
  }

  /** A byte is the one found by the hook taken out last there. */
  lemma {:induction false} TakenOutAllAt(memory: seq<byte>, order: seq<word>, heap: Heap, a: nat)
    requires Backed(order, heap, |memory|) && a < |memory|
    ensures TakenOutAll(memory, order, heap)[a]
         == match LastAt(order, heap, a) case None => memory[a] case Some(h) => Saved(heap[h], a)
    decreases |order|
  {
    hide TakenOut, Sound, Writes, Saved;
    if order != [] {
      var data := heap[order[0]];
      TakenOutAt(memory, data, a);
      TakenOutAllAt(TakenOut(memory, data), order[1..], heap, a);
    }
  }

  /** In taking out the last first, it is the one found by the first hook there. */
  lemma {:induction false} UndoAt(memory: seq<byte>, list: seq<word>, heap: Heap, a: nat)
    requires Backed(list, heap, |memory|) && a < |memory|
    ensures Undo(memory, list, heap)[a]
         == match FirstAt(list, heap, a) case None => memory[a] case Some(h) => Saved(heap[h], a)
    decreases |list|
  {
    hide TakenOut, Sound, Writes, Saved;
    if list != [] {
      var last := |list| - 1;
      var data := heap[list[last]];
      TakenOutAt(memory, data, a);
      UndoAt(TakenOut(memory, data), list[..last], heap, a);
    }
  }

  // ---------------------------------------------------------------- as a run of the manager

  function Restores(order: seq<word>): seq<Event>
  {
    seq(|order|, i requires 0 <= i < |order| => Restored(order[i]))
  }

  /** A consistent state, seen without its memory: the list and the records agree. */
  ghost predicate Agree(s: State, order: seq<word>)
  {
    && Backed(order, s.heap, |s.memory|)
    && multiset(order) == multiset(s.list)
    && (forall i, j | 0 <= i < j < |order| :: order[i] != order[j])
    && (forall h | h in s.heap :: h in order)
  }

  lemma {:induction false} TakenOutSameRecords(memory: seq<byte>, order: seq<word>, heap: Heap, heap': Heap)
    requires Backed(order, heap, |memory|)
    requires forall i | 0 <= i < |order| :: order[i] in heap' && heap'[order[i]] == heap[order[i]]
    ensures Backed(order, heap', |memory|)
    ensures TakenOutAll(memory, order, heap') == TakenOutAll(memory, order, heap)
    decreases |order|
  {
    hide TakenOut, Sound;
    if order != [] {
      TakenOutSameRecords(TakenOut(memory, heap[order[0]]), order[1..], heap, heap');
    }
  }

  /** Restoring every hook empties list and heap, and takes the hooks out in that order. */
  lemma {:induction false} RestoresRun(s: State, order: seq<word>)
    requires Agree(s, order)
    ensures Backed(order, s.heap, |s.memory|) && PossibleRun(s, Restores(order))
    ensures After(s, Restores(order)) == State(TakenOutAll(s.memory, order, s.heap), [], map[])
    decreases |order|
  {
    hide Agree, TakenOut, Sound, Apply, Possible, Backed;
    AgreeIsBacked(s, order);
    if order == [] {
      NothingLeft(s);
    } else {
      RestoreOne(s, order);
      assert Restores(order)[0] == Restored(order[0]) && Restores(order)[1..] == Restores(order[1..]);
      RestoresRun(Apply(s, Restored(order[0])), order[1..]);
    }
  }

  lemma AgreeIsBacked(s: State, order: seq<word>)
    requires Agree(s, order)
    ensures Backed(order, s.heap, |s.memory|)
  {
  }

  lemma NothingLeft(s: State)
    requires Agree(s, [])
    ensures s.list == [] && s.heap == map[]
  {
    assert |multiset(s.list)| == |s.list|;
    assert s.heap.Keys == {};
  }

  lemma RestoreOne(s: State, order: seq<word>)
    requires Agree(s, order) && order != []
    ensures Possible(s, Restored(order[0]))
    ensures var s' := Apply(s, Restored(order[0]));
            && Agree(s', order[1..])
            && TakenOutAll(s'.memory, order[1..], s'.heap) == TakenOutAll(s.memory, order, s.heap)
  {
    hide TakenOut, Sound, Without, Drop;
    var h := order[0];
    ListsShrink(s.list, order);
    var s' := Apply(s, Restored(h));
    assert forall i | 0 <= i < |order| - 1 :: order[1..][i] == order[i + 1];
    TakenOutSameRecords(s'.memory, order[1..], s.heap, s'.heap);
  }

  lemma ListsShrink(list: seq<word>, order: seq<word>)
    requires order != [] && multiset(order) == multiset(list)
    ensures order[0] in list && multiset(Without(list, order[0])) == multiset(order[1..])
  {
    var h := order[0];
    assert h in multiset(order);
    var i := WithoutDrops(list, h);
    DropCounts(list, i);
    assert order == [h] + order[1..];
    MultisetLessOne(multiset(Drop(list, i)), multiset(order[1..]), h);
  }

  lemma MultisetLessOne(a: multiset<word>, b: multiset<word>, h: word)
    requires a + multiset{h} == b + multiset{h}
    ensures a == b
  {
    forall x ensures a[x] == b[x] {
      assert (a + multiset{h})[x] == (b + multiset{h})[x];
    }
  }

  // ---------------------------------------------------------------- the exact condition

  /** From any state a clean run leads to, restoring all hooks in any order gives the original
      program back if and only if at every address the hook restored last had found there the
      same byte as the hook installed first. */
  lemma AnyOrderRestores(s: State, order: seq<word>, initial: seq<byte>)
    requires Consistent(s, initial) && multiset(order) == multiset(s.list)
    ensures Agree(s, order) && PossibleRun(s, Restores(order)) && InHeap(s.list, s.heap) && InHeap(order, s.heap)
    ensures var end := After(s, Restores(order));
            && end.list == [] && end.heap == map[]
            && (end.memory == initial <==>
                  forall a: nat | a < |initial| :: SameByteFound(s.list, order, s.heap, a))
  {
    hide Undo, TakenOutAll, Sound, FirstAt, LastAt, Saved, SameByteFound, Backed;
    SameElements(s, order);
    RestoresRun(s, order);
    var restored := TakenOutAll(s.memory, order, s.heap);
    forall a: nat | a < |initial| ensures restored[a] == initial[a] <==> SameByteFound(s.list, order, s.heap, a) {
      ByteComesBack(s, order, initial, a);
    }
    if forall a: nat | a < |initial| :: SameByteFound(s.list, order, s.heap, a) {
      assert forall a: nat | a < |initial| :: restored[a] == initial[a];
    }
  }

  ghost predicate SameByteFound(list: seq<word>, order: seq<word>, heap: Heap, a: nat)
    requires InHeap(list, heap) && InHeap(order, heap)
    requires forall h | h in list :: WellFormed(heap[h])
    requires forall h | h in order :: WellFormed(heap[h])
  {
    var first, last := FirstAt(list, heap, a), LastAt(order, heap, a);
    first.Some? && last.Some? ==> Saved(heap[last.value], a) == Saved(heap[first.value], a)
  }

  lemma ByteComesBack(s: State, order: seq<word>, initial: seq<byte>, a: nat)
    requires Consistent(s, initial) && Agree(s, order) && a < |initial|
    requires InHeap(s.list, s.heap) && InHeap(order, s.heap)
    ensures TakenOutAll(s.memory, order, s.heap)[a] == initial[a] <==> SameByteFound(s.list, order, s.heap, a)
  {
    hide Undo, TakenOutAll, Saved, FirstAt, LastAt, Writes;
    UndoAt(s.memory, s.list, s.heap, a);
    TakenOutAllAt(s.memory, order, s.heap, a);
    var first, last := FirstAt(s.list, s.heap, a), LastAt(order, s.heap, a);
    assert first.Some? <==> last.Some? by {
      if first.Some? {
        var p :| 0 <= p < |order| && order[p] == first.value;
        var _ := LastAtIsLast(order, s.heap, a, p);
      }
      if last.Some? {
        assert last.value in multiset(s.list);
        var i :| 0 <= i < |s.list| && s.list[i] == last.value;
        var _ := FirstAtIsFirst(s.list, s.heap, a, i);
      }
    }
  }

  lemma SameElements(s: State, order: seq<word>)
    requires Backed(s.list, s.heap, |s.memory|) && multiset(order) == multiset(s.list)
    requires forall i, j | 0 <= i < j < |s.list| :: s.list[i] != s.list[j]
    requires forall h | h in s.heap :: h in s.list
    ensures Agree(s, order) && InHeap(s.list, s.heap) && InHeap(order, s.heap)
    ensures forall h | h in s.list :: WellFormed(s.heap[h])
    ensures forall h | h in order :: WellFormed(s.heap[h])
  {
    hide Idle;
    forall i | 0 <= i < |order| ensures order[i] in s.heap && Sound(s.heap[order[i]], |s.memory|) {
      assert order[i] in multiset(s.list);
      var k :| 0 <= k < |s.list| && s.list[k] == order[i];
    }
    forall h | h in s.heap ensures h in order {
      assert h in multiset(order);
    }
    StaysDistinct(s.list, order);
  }

  lemma StaysDistinct(list: seq<word>, order: seq<word>)
    requires multiset(order) == multiset(list)
    requires forall i, j | 0 <= i < j < |list| :: list[i] != list[j]
    ensures forall i, j | 0 <= i < j < |order| :: order[i] != order[j]
  {
    forall i, j | 0 <= i < j < |order| ensures order[i] != order[j] {
      if order[i] == order[j] {
        TwiceCounts(order, i, j);
        OnceCounts(list, order[i]);
      }
    }
  }

  lemma TwiceCounts(list: seq<word>, i: nat, j: nat)
    requires i < j < |list| && list[i] == list[j]
    ensures multiset(list)[list[i]] >= 2
  {
    assert list == list[..j] + list[j..];
    assert list[i] in list[..j] && list[j] in list[j..];
  }

  lemma {:induction false} OnceCounts(list: seq<word>, x: word)
    requires forall i, j | 0 <= i < j < |list| :: list[i] != list[j]
    ensures multiset(list)[x] <= 1
  {
    if list != [] {
      OnceCounts(list[1..], x);
      assert list == [list[0]] + list[1..];
      if list[0] == x {
        assert x !in list[1..];
      }
    }
  }

  // ---------------------------------------------------------------- a rule for callers

  /** `x` stands before `y` in the list. */
  ghost predicate Before(list: seq<word>, x: word, y: word)
  {
    exists i, j | 0 <= i < j < |list| :: list[i] == x && list[j] == y
  }

  /** Of two hooks whose sites overlap, the one installed later is restored earlier. */
  ghost predicate LatestFirst(list: seq<word>, order: seq<word>, heap: Heap)
    requires InHeap(order, heap)
  {
    forall p, q, a: nat | 0 <= p < q < |order| && Writes(heap[order[p]], a) && Writes(heap[order[q]], a) ::
      Before(list, order[q], order[p])
  }

  /** Restoring overlapping hooks latest first is enough. */
  lemma LatestFirstRestores(s: State, order: seq<word>, initial: seq<byte>)
    requires Consistent(s, initial) && multiset(order) == multiset(s.list)
    requires InHeap(order, s.heap) && LatestFirst(s.list, order, s.heap)
    ensures PossibleRun(s, Restores(order)) && After(s, Restores(order)) == State(initial, [], map[])
  {
    hide Undo, Sound, FirstAt, LastAt, Saved, Backed, LatestFirst, Writes;
    AnyOrderRestores(s, order, initial);
    SameElements(s, order);
    forall a: nat | a < |initial| ensures SameByteFound(s.list, order, s.heap, a) {
      FirstIsLast(s, order, a);
    }
  }

  lemma FirstIsLast(s: State, order: seq<word>, a: nat)
    requires Agree(s, order) && InHeap(s.list, s.heap) && InHeap(order, s.heap)
    requires forall i, j | 0 <= i < j < |s.list| :: s.list[i] != s.list[j]
    requires LatestFirst(s.list, order, s.heap)
    ensures var first, last := FirstAt(s.list, s.heap, a), LastAt(order, s.heap, a);
            first.Some? && last.Some? ==> first == last
  {
    hide Writes, Backed, FirstAt, LastAt;
    var first, last := FirstAt(s.list, s.heap, a), LastAt(order, s.heap, a);
    if first.Some? && last.Some? && first != last {
      var p :| 0 <= p < |order| && order[p] == first.value;
      var q := LastAtIsLast(order, s.heap, a, p);
      assert Before(s.list, last.value, first.value);
      var i, j :| 0 <= i < j < |s.list| && s.list[i] == last.value && s.list[j] == first.value;
      var k := FirstAtIsFirst(s.list, s.heap, a, i);
      assert false;
    }
  }

  // ---------------------------------------------------------------- the wrong order

  /** Two recorded installs into an empty manager, nothing refused and nothing lost. */
  ghost predicate BothInstalled(m: seq<byte>, e1: Event, e2: Event)
  {
    && e1.Patched? && e1.record.Some? && e2.Patched? && e2.record.Some?
    && var s := State(m, [], map[]);
       && Clean(s, e1)
       && Backed(Apply(s, e1).list, Apply(s, e1).heap, |m|) && Clean(Apply(s, e1), e2)
  }

  /** Two hooks, installed in this order and restored in the same: the manager ends up empty, and the
      original program comes back if and only if the first hook had changed nothing in the second
      site. */
  lemma TwoInInstallOrder(m: seq<byte>, e1: Event, e2: Event)
    requires BothInstalled(m, e1, e2)
    ensures PossibleRun(State(m, [], map[]), [e1, e2])
    ensures var s := After(State(m, [], map[]), [e1, e2]);
            var order := [e1.record.value.0, e2.record.value.0];
            && Consistent(s, m) && s.list == order && PossibleRun(s, Restores(order))
            && After(s, Restores(order)).list == [] && After(s, Restores(order)).heap == map[]
            && e1.site + |e1.hook| <= |m| && e2.site + |e2.hook| <= |m|
            && (After(s, Restores(order)).memory == m
                <==> Splice(m, e1.site, e1.hook)[e2.site..e2.site + |e2.hook|] == m[e2.site..e2.site + |e2.hook|])
  {
    hide Consistent, Splice, TakenOut, Original, PossibleRun, After, Sound, Idle, Apply, TakenOutAll, BothInstalled;
    BothAreIn(m, e1, e2);
    var s := After(State(m, [], map[]), [e1, e2]);
    var order := [e1.record.value.0, e2.record.value.0];
    ConsistentParts(s, m);
    SameElements(s, order);
    RestoresRun(s, order);
    TwoTakenOut(s.memory, order, s.heap);
    var d1, d2 := e1.record.value.1, e2.record.value.1;
    TakenOutIsSplice(s.memory, d1);
    TakenOutIsSplice(TakenOut(s.memory, d1), d2);
    FirstInFirstOut(m, e1.site, e1.hook, e2.site, e2.hook);
  }

  /** The state the two installs lead to, and what their records hold. */
  lemma BothAreIn(m: seq<byte>, e1: Event, e2: Event)
    requires BothInstalled(m, e1, e2)
    ensures e1.Patched? && e1.record.Some? && e2.Patched? && e2.record.Some?
    ensures PossibleRun(State(m, [], map[]), [e1, e2])
    ensures var s := After(State(m, [], map[]), [e1, e2]);
            var (h1, d1) := e1.record.value;
            var (h2, d2) := e2.record.value;
            && Consistent(s, m) && s.list == [h1, h2] && s.heap == map[h1 := d1, h2 := d2] && h1 != h2
            && e1.site + |e1.hook| <= |m| && e2.site + |e2.hook| <= |m|
            && var m1 := Splice(m, e1.site, e1.hook);
               && s.memory == Splice(m1, e2.site, e2.hook)
               && Sound(d1, |m|) && d1.source == e1.site != INVALID_RVA && d1.originSize == |e1.hook|
               && Sound(d2, |m|) && d2.source == e2.site != INVALID_RVA && d2.originSize == |e2.hook|
               && Original(d1) == m[e1.site..e1.site + |e1.hook|]
               && Original(d2) == m1[e2.site..e2.site + |e2.hook|]
  {
    hide Consistent, Splice, Original, PossibleRun, After, Idle, Apply;
    var s0 := State(m, [], map[]);
    EmptyIsConsistent(m);
    var s1 := Apply(s0, e1);
    CleanKeepsConsistent(s0, e1, m);
    CleanKeepsConsistent(s1, e2, m);
    TwoSteps(s0, e1, e2);
    InstallEffect(s0, e1);
    InstallEffect(s1, e2);
  }

  lemma TwoSteps(s: State, e1: Event, e2: Event)
    requires Possible(s, e1) && Possible(Apply(s, e1), e2)
    ensures PossibleRun(s, [e1, e2]) && After(s, [e1, e2]) == Apply(Apply(s, e1), e2)
  {
    hide Apply, Possible;
    var s1 := Apply(s, e1);
    assert [e1, e2][1..] == [e2] && [e2][1..] == [];
    assert PossibleRun(s1, [e2]);
    assert After(s1, [e2]) == Apply(s1, e2);
  }

  lemma InstallEffect(s: State, e: Event)
    requires Backed(s.list, s.heap, |s.memory|) && Clean(s, e) && e.Patched?
    ensures var (handle, data) := e.record.value;
            && Possible(s, e) && e.site + |e.hook| <= |s.memory|
            && Apply(s, e) == State(Splice(s.memory, e.site, e.hook), s.list + [handle], s.heap[handle := data])
            && handle !in s.heap && Sound(data, |s.memory|) && data.source == e.site != INVALID_RVA
            && data.originSize == |e.hook| && Original(data) == s.memory[e.site..e.site + |e.hook|]
  {
    hide Splice;
  }

  lemma EmptyIsConsistent(m: seq<byte>)
    ensures Consistent(State(m, [], map[]), m)
  {
  }

  lemma ConsistentParts(s: State, initial: seq<byte>)
    requires Consistent(s, initial)
    ensures |s.memory| == |initial| && Backed(s.list, s.heap, |s.memory|)
    ensures forall i, j | 0 <= i < j < |s.list| :: s.list[i] != s.list[j]
    ensures forall h | h in s.heap :: h in s.list
  {
  }

  lemma TwoTakenOut(memory: seq<byte>, order: seq<word>, heap: Heap)
    requires |order| == 2 && Backed(order, heap, |memory|)
    ensures TakenOutAll(memory, order, heap) == TakenOut(TakenOut(memory, heap[order[0]]), heap[order[1]])
  {
    hide TakenOut;
    var once := TakenOut(memory, heap[order[0]]);
    assert order[1..][1..] == [];
    assert TakenOutAll(once, order[1..], heap) == TakenOut(once, heap[order[1]]);
  }

  lemma TakenOutIsSplice(m: seq<byte>, data: TrampolineData)
    requires Sound(data, |m|) && data.source != INVALID_RVA && data.source + data.originSize <= |m|
    ensures TakenOut(m, data) == Splice(m, data.source, Original(data))
  {
    if data.originSize == 0 {
      SpliceNothing(m, data.source);
    }
  }

  /** So when a site is hooked twice with hooks of one length, restoring the first hook first gives
      back something else, unless the first hook changed nothing at all. */
  lemma SameSiteInInstallOrder(m: seq<byte>, e1: Event, e2: Event)
    requires BothInstalled(m, e1, e2) && e1.site == e2.site && |e1.hook| == |e2.hook|
    ensures PossibleRun(State(m, [], map[]), [e1, e2])
    ensures var s := After(State(m, [], map[]), [e1, e2]);
            var order := [e1.record.value.0, e2.record.value.0];
            && e1.site + |e1.hook| <= |m| && multiset(order) == multiset(s.list) && PossibleRun(s, Restores(order))
            && (After(s, Restores(order)).memory == m <==> e1.hook == m[e1.site..e1.site + |e1.hook|])
  {
    hide Clean, Apply, Backed, PossibleRun, After, Splice;
    TwoInInstallOrder(m, e1, e2);
    SplicedPart(m, e1.site, e1.hook);
  }

  lemma SplicedPart(m: seq<byte>, at: nat, piece: seq<byte>)
    requires at + |piece| <= |m|
    ensures Splice(m, at, piece)[at..at + |piece|] == piece
  {
  }
}
