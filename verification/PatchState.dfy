/** The patch manager's state and what happens to it over a run of installs and restores. */
module PatchState {
  import opened Words

  /** TRAMPOLINE_DATA. The trampoline and the saved original code are neighbours in one block,
      and nothing keeps the former from running into the latter, so they are kept as one. */
  datatype TrampolineData = TrampolineData(code: seq<byte>, originSize: nat, jumpBackAddress: word, source: word)

  const ORIGINAL_CODE := 0x40
  const CODE_END := 0x80

  /** The address that tells a patch to do nothing. */
  const INVALID_RVA: word := 0xFFFF_FFFF

  predicate WellFormed(data: TrampolineData)
  {
    |data.code| == CODE_END && data.originSize <= CODE_END - ORIGINAL_CODE
  }

  /** A record whose restoring writes nothing and succeeds. */
  predicate Idle(data: TrampolineData)
  {
    data.originSize == 0 || data.source == INVALID_RVA
  }

  /** The record is well-formed and its site, if restoring writes there, lies in memory of `size`
      bytes. */
  predicate Sound(data: TrampolineData, size: nat)
  {
    WellFormed(data) && (Idle(data) || data.source + data.originSize <= size)
  }

  /** The saved bytes, as RestoreMemory reads them. */
  function Original(data: TrampolineData): (s: seq<byte>)
    requires WellFormed(data)
    ensures |s| == data.originSize
  {
    data.code[ORIGINAL_CODE..ORIGINAL_CODE + data.originSize]
  }

  /** Memory with the saved bytes of one hook put back. */
  function TakenOut(m: seq<byte>, data: TrampolineData): (r: seq<byte>)
    requires Sound(data, |m|)
    ensures |r| == |m|
  {
    if Idle(data) then m else Splice(m, data.source, Original(data))
  }

  /** Code memory, the list of trampolines, and the records the heap holds by address. */
  datatype State = State(memory: seq<byte>, list: seq<word>, heap: map<word, TrampolineData>)

  datatype Event =
    | Nothing
    | Patched(site: word, hook: seq<byte>, record: Option<(word, TrampolineData)>, listed: bool)
    | Refused(handle: word, listed: bool)   // protection failed after the record was made
    | Restored(handle: word)

  function WithRecord(s: State, record: Option<(word, TrampolineData)>, listed: bool): State
  {
    match record
    case None => s
    case Some((handle, data)) =>
      s.(heap := s.heap[handle := data], list := if listed then s.list + [handle] else s.list)
  }

  function Without(list: seq<word>, x: word): seq<word>
  {
    if list == [] then []
    else if list[0] == x then list[1..]
    else [list[0]] + Without(list[1..], x)
  }

  predicate Possible(s: State, e: Event)
  {
    match e
    case Nothing => true
    case Patched(site, hook, record, _) =>
      site + |hook| <= |s.memory| && (record.Some? ==> Sound(record.value.1, |s.memory|))
    case Refused(_, _) => true
    case Restored(handle) => handle in s.heap && Sound(s.heap[handle], |s.memory|)
  }

  /** What an event does. A refused patch frees its record but leaves it in the list. */
  function Apply(s: State, e: Event): (s': State)
    requires Possible(s, e)
    ensures |s'.memory| == |s.memory|
  {
    match e
    case Nothing => s
    case Patched(site, hook, record, listed) =>
      WithRecord(s, record, listed).(memory := Splice(s.memory, site, hook))
    case Refused(handle, listed) => if listed then s.(list := s.list + [handle]) else s
    case Restored(handle) =>
      var data := s.heap[handle];
      var restored := s.(memory := TakenOut(s.memory, data));
      if handle in s.list then restored.(list := Without(s.list, handle), heap := s.heap - {handle}) else restored
  }

  // ---------------------------------------------------------------- undoing

  predicate Covers(data: TrampolineData, a: int)
  {
    data.source <= a < data.source + data.originSize
  }

  predicate Apart(a: TrampolineData, b: TrampolineData)
  {
    a.source + a.originSize <= b.source || b.source + b.originSize <= a.source
  }

  ghost predicate Backed(list: seq<word>, heap: map<word, TrampolineData>, size: nat)
  {
    forall i | 0 <= i < |list| :: list[i] in heap && Sound(heap[list[i]], size)
  }

  /** Memory with all listed hooks taken out again, the last first. */
  ghost function Undo(memory: seq<byte>, list: seq<word>, heap: map<word, TrampolineData>): (m: seq<byte>)
    requires Backed(list, heap, |memory|)
    ensures |m| == |memory|
    decreases |list|
  {
    if list == [] then memory
    else
      var last := |list| - 1;
      var data := heap[list[last]];
      Undo(TakenOut(memory, data), list[..last], heap)
  }

  /** Only the bytes of listed sites are touched. */
  lemma {:induction false} UndoStaysInside(memory: seq<byte>, list: seq<word>, heap: map<word, TrampolineData>, a: nat)
    requires Backed(list, heap, |memory|) && a < |memory|
    requires forall i | 0 <= i < |list| :: !Covers(heap[list[i]], a)
    ensures Undo(memory, list, heap)[a] == memory[a]
    decreases |list|
  {
    if list != [] {
      var last := |list| - 1;
      var data := heap[list[last]];
      UndoStaysInside(TakenOut(memory, data), list[..last], heap, a);
    }
  }

  lemma {:induction false} UndoSameRecords(memory: seq<byte>, list: seq<word>, heap: map<word, TrampolineData>,
                                           heap': map<word, TrampolineData>)
    requires Backed(list, heap, |memory|)
    requires forall i | 0 <= i < |list| :: list[i] in heap' && heap'[list[i]] == heap[list[i]]
    ensures Backed(list, heap', |memory|)
    ensures Undo(memory, list, heap') == Undo(memory, list, heap)
    decreases |list|
  {
    if list != [] {
      var last := |list| - 1;
      var data := heap[list[last]];
      UndoSameRecords(TakenOut(memory, data), list[..last], heap, heap');
    }
  }

  lemma SplicesCommute(m: seq<byte>, a: TrampolineData, b: TrampolineData)
    requires Sound(a, |m|) && Sound(b, |m|) && Apart(a, b)
    ensures TakenOut(TakenOut(m, a), b) == TakenOut(TakenOut(m, b), a)
  {
  }

  function Drop(list: seq<word>, i: nat): seq<word>
    requires i < |list|
  {
    list[..i] + list[i + 1..]
  }

  lemma DropThenInit(list: seq<word>, i: nat)
    requires i < |list| - 1
    ensures var last := |list| - 1;
            Drop(list, i)[..last - 1] == Drop(list[..last], i) && Drop(list, i)[last - 1] == list[last]
  {
    var last := |list| - 1;
    assert Drop(list, i)[..last - 1] == Drop(list[..last], i);
  }

  /** Taking one hook out early makes no difference to taking all of them out, if it is apart
      from every hook installed after it. */
  lemma {:induction false} UndoOneEarly(memory: seq<byte>, list: seq<word>, heap: map<word, TrampolineData>, i: nat)
    requires Backed(list, heap, |memory|) && i < |list|
    requires forall j | i < j < |list| :: Apart(heap[list[i]], heap[list[j]])
    ensures var data := heap[list[i]];
            && Backed(Drop(list, i), heap, |memory|)
            && Undo(TakenOut(memory, data), Drop(list, i), heap) == Undo(memory, list, heap)
    decreases |list|
  {
    hide TakenOut, Sound, Apart;
    var data := heap[list[i]];
    var last := |list| - 1;
    if i == last {
      assert Drop(list, i) == list[..last];
    } else {
      var other := heap[list[last]];
      DropThenInit(list, i);
      SplicesCommute(memory, data, other);
      UndoOneEarly(TakenOut(memory, other), list[..last], heap, i);
    }
  }

  // ---------------------------------------------------------------- runs

  /** Nothing lost so far: every listed record is in the heap and every record is listed, once;
      and with all of them taken out, code memory is `initial`. */
  ghost predicate Consistent(s: State, initial: seq<byte>)
  {
    && |s.memory| == |initial|
    && Backed(s.list, s.heap, |s.memory|)
    && (forall i, j | 0 <= i < j < |s.list| :: s.list[i] != s.list[j])
    && (forall h | h in s.heap :: h in s.list)
    && Undo(s.memory, s.list, s.heap) == initial
  }

  /** A hook may be taken out when it is apart from all that were installed after it. */
  ghost predicate Free(s: State, handle: word)
    requires Backed(s.list, s.heap, |s.memory|)
  {
    forall i, j | 0 <= i < j < |s.list| && s.list[i] == handle :: Apart(s.heap[handle], s.heap[s.list[j]])
  }

  /** An event of a run in which the operating system refuses nothing: a recorded install at a
      new heap address that saved the bytes it overwrites, or the restoring of a free hook. */
  ghost predicate Clean(s: State, e: Event)
    requires Backed(s.list, s.heap, |s.memory|)
  {
    Possible(s, e) &&
    match e
    case Nothing => true
    case Patched(site, hook, record, listed) =>
      && record.Some? && listed && record.value.0 !in s.heap
      && record.value.1.source == site != INVALID_RVA && Original(record.value.1) == s.memory[site..site + |hook|]
    case Refused(_, _) => false
    case Restored(handle) => Free(s, handle)
  }

  /** Restoring any hook of a set of pairwise disjoint ones, or the latest of any, is free. */
  lemma DisjointOrLatestIsFree(s: State, handle: word)
    requires Backed(s.list, s.heap, |s.memory|) && handle in s.list
    requires forall i, j | 0 <= i < j < |s.list| :: s.list[i] != s.list[j]
    requires (forall i, j | 0 <= i < j < |s.list| :: Apart(s.heap[s.list[i]], s.heap[s.list[j]]))
             || s.list[|s.list| - 1] == handle
    ensures Free(s, handle)
  {
  }

  lemma {:induction false} WithoutDrops(list: seq<word>, x: word) returns (i: nat)
    requires x in list
    ensures i < |list| && list[i] == x && Without(list, x) == Drop(list, i)
  {
    if list[0] == x {
      i := 0;
    } else {
      var k := WithoutDrops(list[1..], x);
      i := k + 1;
    }
  }

  lemma PatchKeepsConsistent(s: State, site: word, hook: seq<byte>, handle: word, data: TrampolineData,
                             initial: seq<byte>)
    requires Consistent(s, initial) && Clean(s, Patched(site, hook, Some((handle, data)), true))
    ensures Consistent(Apply(s, Patched(site, hook, Some((handle, data)), true)), initial)
  {
    hide Splice, Undo, TakenOut, Sound;
    var s' := Apply(s, Patched(site, hook, Some((handle, data)), true));
    forall i | 0 <= i < |s.list| ensures s.list[i] in s'.heap && s'.heap[s.list[i]] == s.heap[s.list[i]] {
      assert s.list[i] in s.heap;
    }
    UndoSameRecords(s.memory, s.list, s.heap, s'.heap);
    HookTakenOut(s.memory, site, hook, data);
    UndoLast(s'.memory, s.list, handle, s'.heap);
  }

  lemma HookTakenOut(m: seq<byte>, site: nat, hook: seq<byte>, data: TrampolineData)
    requires Sound(data, |m|) && data.source == site != INVALID_RVA && site + |hook| <= |m|
    requires Original(data) == m[site..site + |hook|]
    ensures TakenOut(Splice(m, site, hook), data) == m
  {
    PutBack(m, site, hook);
    SpliceNothing(m, site);
  }

  lemma UndoLast(memory: seq<byte>, list: seq<word>, handle: word, heap: map<word, TrampolineData>)
    requires Backed(list, heap, |memory|) && handle in heap && Sound(heap[handle], |memory|)
    ensures Backed(list + [handle], heap, |memory|)
    ensures Undo(memory, list + [handle], heap) == Undo(TakenOut(memory, heap[handle]), list, heap)
  {
    hide TakenOut, Sound;
    assert (list + [handle])[..|list|] == list;
  }

  lemma RestoreKeepsConsistent(s: State, handle: word, initial: seq<byte>)
    requires Consistent(s, initial) && Clean(s, Restored(handle))
    ensures Consistent(Apply(s, Restored(handle)), initial)
  {
    hide TakenOut, Sound, Apart, Undo, Without;
    var s' := Apply(s, Restored(handle));
    var i := WithoutDrops(s.list, handle);
    UndoOneEarly(s.memory, s.list, s.heap, i);
    assert forall k | 0 <= k < |s'.list| :: s'.list[k] == s.list[if k < i then k else k + 1];
    UndoSameRecords(s'.memory, s'.list, s.heap, s'.heap);
  }

  /** Every clean event keeps a consistent state consistent. */
  lemma CleanKeepsConsistent(s: State, e: Event, initial: seq<byte>)
    requires Consistent(s, initial) && Clean(s, e)
    ensures Consistent(Apply(s, e), initial)
  {
    hide Consistent, Undo;
    match e {
      case Patched(site, hook, record, listed) =>
        PatchKeepsConsistent(s, site, hook, record.value.0, record.value.1, initial);
      case Restored(handle) => RestoreKeepsConsistent(s, handle, initial);
      case _ =>
    }
  }

  lemma PutBack(m: seq<byte>, site: nat, hook: seq<byte>)
    requires site + |hook| <= |m|
    ensures Splice(Splice(m, site, hook), site, m[site..site + |hook|]) == m
  {
  }

  ghost predicate CleanRun(s: State, events: seq<Event>)
    decreases |events|
  {
    events == []
    || (Backed(s.list, s.heap, |s.memory|) && Clean(s, events[0]) && CleanRun(Apply(s, events[0]), events[1..]))
  }

  ghost predicate PossibleRun(s: State, events: seq<Event>)
    decreases |events|
  {
    events == [] || (Possible(s, events[0]) && PossibleRun(Apply(s, events[0]), events[1..]))
  }

  ghost function After(s: State, events: seq<Event>): State
    requires PossibleRun(s, events)
    decreases |events|
  {
    if events == [] then s else After(Apply(s, events[0]), events[1..])
  }

  /** Over any clean run from a state without hooks: at every point memory differs from what it
      was only inside the sites of hooks still listed, the list holds exactly the records, each
      once, and once all hooks are restored memory is what it was. */
  lemma {:induction false} CleanRunsUndo(s: State, events: seq<Event>, initial: seq<byte>)
    requires Consistent(s, initial) && CleanRun(s, events)
    ensures PossibleRun(s, events)
    ensures var end := After(s, events);
            && Consistent(end, initial)
            && (forall a: nat | a < |initial| && end.memory[a] != initial[a] ::
                  exists i | 0 <= i < |end.list| :: Covers(end.heap[end.list[i]], a))
            && (forall h :: h in end.heap <==> h in end.list)
            && (end.list == [] ==> end.memory == initial)
    decreases |events|
  {
    hide Sound, Covers, Apply, Free;
    if events == [] {
      assert forall h | h in s.list :: h in s.heap;
      forall a: nat | a < |initial| && s.memory[a] != initial[a]
        ensures exists i | 0 <= i < |s.list| :: Covers(s.heap[s.list[i]], a)
      {
        if forall i | 0 <= i < |s.list| :: !Covers(s.heap[s.list[i]], a) {
          UndoStaysInside(s.memory, s.list, s.heap, a);
        }
      }
    } else {
      CleanKeepsConsistent(s, events[0], initial);
      CleanRunsUndo(Apply(s, events[0]), events[1..], initial);
    }
  }

  // ---------------------------------------------------------------- what goes wrong, and when

  ghost predicate Live(s: State)
  {
    forall h | h in s.list :: h in s.heap
  }

  /** Record addresses are new while they are in the list or the heap; restores name a listed
      record. Protection may fail. */
  ghost predicate Ordinary(s: State, e: Event)
  {
    Possible(s, e) &&
    match e
    case Nothing => true
    case Patched(_, _, record, _) => record.Some? ==> record.value.0 !in s.heap && record.value.0 !in s.list
    case Refused(handle, _) => handle !in s.heap && handle !in s.list
    case Restored(handle) => handle in s.list
  }

  ghost predicate OrdinaryRun(s: State, events: seq<Event>)
    decreases |events|
  {
    events == [] || (Ordinary(s, events[0]) && OrdinaryRun(Apply(s, events[0]), events[1..]))
  }

  ghost predicate Distinct(list: seq<word>)
  {
    forall i, j | 0 <= i < j < |list| :: list[i] != list[j]
  }

  lemma {:induction false} WithoutKeepsOthers(list: seq<word>, x: word)
    requires x in list && Distinct(list)
    ensures forall y :: y in Without(list, x) <==> y in list && y != x
    ensures Distinct(Without(list, x))
  {
    var i := WithoutDrops(list, x);
    DropKeepsOthers(list, i);
  }

  lemma DropKeepsOthers(list: seq<word>, i: nat)
    requires i < |list| && Distinct(list)
    ensures forall y :: y in Drop(list, i) <==> y in list && y != list[i]
    ensures Distinct(Drop(list, i))
  {
    var w := Drop(list, i);
    forall j | 0 <= j < |w| ensures w[j] == list[if j < i then j else j + 1] {
    }
    forall a, b | 0 <= a < b < |w| ensures w[a] != w[b] {
      var a', b' := if a < i then a else a + 1, if b < i then b else b + 1;
      assert list[a'] != list[b'];
    }
    forall y ensures y in w <==> y in list && y != list[i] {
      if y in w {
        var j :| 0 <= j < |w| && w[j] == y;
        assert list[if j < i then j else j + 1] == y;
      }
      if y in list && y != list[i] {
        var k :| 0 <= k < |list| && list[k] == y;
        assert w[if k < i then k else k - 1] == y;
      }
    }
  }

  /** A refused patch leaves a freed record in the list for good: as long as no address in the
      list is handed out again, the list holds only live records exactly when no recorded patch
      was refused protection. */
  lemma {:induction false} ListIsLiveUnlessRefused(s: State, events: seq<Event>)
    requires OrdinaryRun(s, events) && Distinct(s.list)
    ensures PossibleRun(s, events)
    ensures Live(After(s, events))
            <==> Live(s) && forall i | 0 <= i < |events| :: !(events[i].Refused? && events[i].listed)
    decreases |events|
  {
    hide Sound, TakenOut, Splice, Distinct;
    if events != [] {
      var e := events[0];
      var s' := Apply(s, e);
      LiveStep(s, e);
      ListIsLiveUnlessRefused(s', events[1..]);
      assert forall i | 1 <= i < |events| :: events[i] == events[1..][i - 1];
      hide Apply, Live, Ordinary;
    }
  }

  /** Record addresses are new to the heap, though they may still be in the list. */
  ghost predicate FreshRun(s: State, events: seq<Event>)
    decreases |events|
  {
    events == []
    || (Possible(s, events[0])
        && (events[0].Patched? && events[0].record.Some? ==> events[0].record.value.0 !in s.heap)
        && FreshRun(Apply(s, events[0]), events[1..]))
  }

  /** The records freed by refused patches and left in the list. */
  function Stale(events: seq<Event>): multiset<word>
  {
    if events == [] then multiset{} else StaleOf(events[0]) + Stale(events[1..])
  }

  function StaleOf(e: Event): multiset<word>
  {
    if e.Refused? && e.listed then multiset{e.handle} else multiset{}
  }

  /** The records that never got into the list. */
  function Unlisted(events: seq<Event>): multiset<word>
  {
    if events == [] then multiset{} else UnlistedOf(events[0]) + Unlisted(events[1..])
  }

  function UnlistedOf(e: Event): multiset<word>
  {
    if e.Patched? && e.record.Some? && !e.listed then multiset{e.record.value.0} else multiset{}
  }

  /** What the list holds after any run, freed addresses handed out again or not: the live
      records, each once, without the unlisted ones and with one entry for every refused patch. */
  lemma {:induction false} ListIsRecordsAndRefusals(s: State, events: seq<Event>)
    requires FreshRun(s, events)
    ensures PossibleRun(s, events)
    ensures var end := After(s, events);
            multiset(end.list) + Unlisted(events) + multiset(s.heap.Keys)
            == multiset(end.heap.Keys) + Stale(events) + multiset(s.list)
    decreases |events|
  {
    hide Possible, Apply, StaleOf, UnlistedOf;
    if events != [] {
      var s' := Apply(s, events[0]);
      ListStep(s, events[0]);
      ListIsRecordsAndRefusals(s', events[1..]);
      var end := After(s', events[1..]);
      AddUp(multiset(end.list), Unlisted(events[1..]), multiset(s'.heap.Keys), multiset(end.heap.Keys),
            Stale(events[1..]), multiset(s'.list), UnlistedOf(events[0]), multiset(s.heap.Keys), StaleOf(events[0]),
            multiset(s.list));
    }
  }

  lemma AddUp(l2: multiset<word>, u2: multiset<word>, k1: multiset<word>, k2: multiset<word>, r2: multiset<word>,
              l1: multiset<word>, u1: multiset<word>, k0: multiset<word>, r1: multiset<word>, l0: multiset<word>)
    requires l2 + u2 + k1 == k2 + r2 + l1 && l1 + u1 + k0 == k1 + r1 + l0
    ensures l2 + (u1 + u2) + k0 == k2 + (r1 + r2) + l0
  {
    forall x ensures (l2 + (u1 + u2) + k0)[x] == (k2 + (r1 + r2) + l0)[x] {
      assert (l2 + u2 + k1)[x] == (k2 + r2 + l1)[x];
      assert (l1 + u1 + k0)[x] == (k1 + r1 + l0)[x];
    }
  }

  lemma ListStep(s: State, e: Event)
    requires Possible(s, e) && (e.Patched? && e.record.Some? ==> e.record.value.0 !in s.heap)
    ensures var s' := Apply(s, e);
            multiset(s'.list) + UnlistedOf(e) + multiset(s.heap.Keys)
            == multiset(s'.heap.Keys) + StaleOf(e) + multiset(s.list)
  {
    hide Sound, TakenOut, Splice, Without, UnlistedOf, StaleOf;
    match e {
      case Patched(site, hook, record, listed) => InstallCounts(s, e);
      case Restored(h) => RestoreCounts(s, h);
      case _ => OthersCount(s, e);
    }
  }

  lemma OthersCount(s: State, e: Event)
    requires e.Nothing? || e.Refused?
    ensures var s' := Apply(s, e);
            multiset(s'.list) + UnlistedOf(e) + multiset(s.heap.Keys)
            == multiset(s'.heap.Keys) + StaleOf(e) + multiset(s.list)
  {
    if e.Refused? {
      assert multiset(s.list + [e.handle]) == multiset(s.list) + multiset{e.handle};
    }
  }

  lemma InstallCounts(s: State, e: Event)
    requires e.Patched? && Possible(s, e) && (e.record.Some? ==> e.record.value.0 !in s.heap)
    ensures var s' := Apply(s, e);
            multiset(s'.list) + UnlistedOf(e) + multiset(s.heap.Keys)
            == multiset(s'.heap.Keys) + StaleOf(e) + multiset(s.list)
  {
    hide Sound, TakenOut, Splice, Without;
    var s' := Apply(s, e);
    if e.record.Some? {
      var h := e.record.value.0;
      assert s'.heap.Keys == s.heap.Keys + {h};
      OneMoreKey(s.heap.Keys, h);
      assert multiset(s.list + [h]) == multiset(s.list) + multiset{h};
    }
  }

  lemma RestoreCounts(s: State, h: word)
    requires Possible(s, Restored(h))
    ensures var s' := Apply(s, Restored(h));
            multiset(s'.list) + UnlistedOf(Restored(h)) + multiset(s.heap.Keys)
            == multiset(s'.heap.Keys) + StaleOf(Restored(h)) + multiset(s.list)
  {
    hide Sound, TakenOut, Splice, Without, Drop;
    if h in s.list {
      var i := WithoutDrops(s.list, h);
      DropCounts(s.list, i);
      OneLessKey(s.heap, h);
    }
  }

  lemma OneMoreKey(keys: set<word>, h: word)
    requires h !in keys
    ensures multiset(keys + {h}) == multiset(keys) + multiset{h}
  {
  }

  lemma OneLessKey(heap: map<word, TrampolineData>, h: word)
    requires h in heap
    ensures multiset(heap.Keys) == multiset((heap - {h}).Keys) + multiset{h}
  {
    assert heap.Keys == (heap - {h}).Keys + {h};
  }

  lemma DropCounts(list: seq<word>, i: nat)
    requires i < |list|
    ensures multiset(list) == multiset(Drop(list, i)) + multiset{list[i]}
  {
    assert list == list[..i] + [list[i]] + list[i + 1..];
  }

  lemma AddNothing(a: multiset<word>)
    ensures a + multiset{} == a
  {
  }

  /** From an empty manager, the list ends up with exactly the live records, each once, if and only
      if the refused and the unlisted records are the same. */
  lemma ListIsExactUnlessRefused(memory: seq<byte>, events: seq<Event>)
    requires FreshRun(State(memory, [], map[]), events)
    ensures PossibleRun(State(memory, [], map[]), events)
    ensures var end := After(State(memory, [], map[]), events);
            multiset(end.list) == multiset(end.heap.Keys) <==> Stale(events) == Unlisted(events)
  {
    hide FreshRun, PossibleRun, After, Stale, Unlisted;
    var s := State(memory, [], map[]);
    ListIsRecordsAndRefusals(s, events);
    var end := After(s, events);
    var list, keys := multiset(end.list), multiset(end.heap.Keys);
    assert multiset(s.heap.Keys) == multiset{} && multiset(s.list) == multiset{} by {
      assert s.heap.Keys == {};
    }
    assert list + Unlisted(events) == keys + Stale(events) by {
      AddNothing(list + Unlisted(events));
      AddNothing(keys + Stale(events));
    }
    if list == keys {
      forall x ensures Unlisted(events)[x] == Stale(events)[x] {
        assert (list + Unlisted(events))[x] == (keys + Stale(events))[x];
      }
    }
    if Stale(events) == Unlisted(events) {
      forall x ensures list[x] == keys[x] {
        assert (list + Unlisted(events))[x] == (keys + Stale(events))[x];
      }
    }
  }

  /** A freed address handed out again makes the entry left behind look alive, and lists the new
      record twice. */
  lemma ReuseRevivesStaleEntry(memory: seq<byte>, handle: word, site: word, hook: seq<byte>, data: TrampolineData)
    requires Sound(data, |memory|) && site + |hook| <= |memory|
    ensures var s := State(memory, [], map[]);
            var events := [Refused(handle, true), Patched(site, hook, Some((handle, data)), true)];
            && FreshRun(s, events) && PossibleRun(s, events)
            && After(s, events).list == [handle, handle] && Live(After(s, events))
  {
    var s := State(memory, [], map[]);
    var install := Patched(site, hook, Some((handle, data)), true);
    var events := [Refused(handle, true), install];
    assert events[1..] == [install] && events[1..][1..] == [];
    var s1 := Apply(s, events[0]);
    OneEvent(s1, install);
  }

  lemma OneEvent(s: State, e: Event)
    requires Possible(s, e) && (e.Patched? && e.record.Some? ==> e.record.value.0 !in s.heap)
    ensures FreshRun(s, [e]) && PossibleRun(s, [e]) && After(s, [e]) == Apply(s, e)
  {
    hide Possible, Apply;
    var s' := Apply(s, e);
    assert [e][1..] == [];
    assert FreshRun(s', []) && PossibleRun(s', []) && After(s', []) == s';
  }

  lemma LiveStep(s: State, e: Event)
    requires Ordinary(s, e) && Distinct(s.list)
    ensures var s' := Apply(s, e);
            && (Live(s') <==> Live(s) && !(e.Refused? && e.listed))
            && Distinct(s'.list)
  {
    hide Sound, TakenOut, Splice, Without, Distinct;
    match e {
      case Restored(handle) => WithoutKeepsOthers(s.list, handle);
      case Refused(handle, listed) => OneMoreListed(s.list, handle);
      case Patched(_, _, record, listed) =>
        if record.Some? {
          OneMoreListed(s.list, record.value.0);
        }
      case _ =>
    }
  }

  lemma OneMoreListed(list: seq<word>, handle: word)
    requires handle !in list && Distinct(list)
    ensures var more := list + [handle];
            && (forall h :: h in more <==> h in list || h == handle)
            && Distinct(more)
  {
  }

  /** Two hooks restored in the order they were installed, `ha` at `a` and then `hb` at `b`: memory
      comes back exactly when the first hook had changed nothing inside the second site. */
  lemma FirstInFirstOut(m: seq<byte>, a: nat, ha: seq<byte>, b: nat, hb: seq<byte>)
    requires a + |ha| <= |m| && b + |hb| <= |m|
    ensures var m1 := Splice(m, a, ha);
            var m2 := Splice(m1, b, hb);
            var m3 := Splice(m2, a, m[a..a + |ha|]);
            var m4 := Splice(m3, b, m1[b..b + |hb|]);
            m4 == m <==> m1[b..b + |hb|] == m[b..b + |hb|]
  {
    var m1 := Splice(m, a, ha);
    var m2 := Splice(m1, b, hb);
    var m3 := Splice(m2, a, m[a..a + |ha|]);
    var m4 := Splice(m3, b, m1[b..b + |hb|]);
    assert m4[b..b + |hb|] == m1[b..b + |hb|];
    forall i | 0 <= i < |m| && !(b <= i < b + |hb|) ensures m4[i] == m[i] {
    }
    if m1[b..b + |hb|] == m[b..b + |hb|] {
      forall i | b <= i < b + |hb| ensures m4[i] == m[i] {
        assert m4[i] == m1[b..b + |hb|][i - b] == m[b..b + |hb|][i - b];
      }
    }
  }
}
