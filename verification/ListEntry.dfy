/** Intrusive circular doubly linked lists: a head node and, after it, the entries, linked into
    one circle both ways. */
module Lists {

  class ListEntry {
    var flink: ListEntry?
    var blink: ListEntry?
  }

  ghost predicate Linked(x: ListEntry, y: ListEntry)
    reads x, y
  {
    x.flink == y && y.blink == x
  }

  /** Neighbours in the sequence are linked. */
  ghost predicate Chain(nodes: seq<ListEntry>)
    reads nodes
  {
    forall i | 0 <= i < |nodes| - 1 :: Linked(nodes[i], nodes[i + 1])
  }

  ghost predicate Distinct(nodes: seq<ListEntry>)
  {
    forall i, j | 0 <= i < j < |nodes| :: nodes[i] != nodes[j]
  }

  /** The way round the circle, from the head back to the head. */
  ghost function Circle(head: ListEntry, entries: seq<ListEntry>): seq<ListEntry>
  {
    [head] + entries + [head]
  }

  ghost predicate IsList(head: ListEntry, entries: seq<ListEntry>)
    reads head, entries
  {
    Distinct([head] + entries) && Chain(Circle(head, entries))
  }

  // ---------------------------------------------------------------- lists

  /** A chain in two parts. */
  lemma ChainSplits(a: seq<ListEntry>, b: seq<ListEntry>)
    requires a != [] && b != []
    ensures Chain(a + b) <==> Chain(a) && Chain(b) && Linked(a[|a| - 1], b[0])
  {
    var all := a + b;
    if Chain(all) {
      forall i | 0 <= i < |a| - 1 ensures Linked(a[i], a[i + 1]) {
        assert Linked(all[i], all[i + 1]);
      }
      forall i | 0 <= i < |b| - 1 ensures Linked(b[i], b[i + 1]) {
        assert Linked(all[|a| + i], all[|a| + i + 1]);
      }
      assert Linked(all[|a| - 1], all[|a|]);
    }
    if Chain(a) && Chain(b) && Linked(a[|a| - 1], b[0]) {
      forall i | 0 <= i < |all| - 1 ensures Linked(all[i], all[i + 1]) {
        if i < |a| - 1 {
          assert Linked(a[i], a[i + 1]);
        } else if i >= |a| {
          assert Linked(b[i - |a|], b[i - |a| + 1]);
        }
      }
    }
  }

  lemma DistinctSplits(a: seq<ListEntry>, b: seq<ListEntry>)
    ensures Distinct(a + b) <==> Distinct(a) && Distinct(b) && forall x | x in a :: x !in b
  {
    var all := a + b;
    if Distinct(all) {
      forall i, j | 0 <= i < j < |a| ensures a[i] != a[j] {
        assert all[i] != all[j];
      }
      forall i, j | 0 <= i < j < |b| ensures b[i] != b[j] {
        assert all[|a| + i] != all[|a| + j];
      }
      forall x | x in a ensures x !in b {
        var i :| 0 <= i < |a| && a[i] == x;
        forall j | 0 <= j < |b| ensures b[j] != x {
          assert all[i] != all[|a| + j];
        }
      }
    }
    if Distinct(a) && Distinct(b) && forall x | x in a :: x !in b {
      forall i, j | 0 <= i < j < |all| ensures all[i] != all[j] {
        if i < |a| <= j {
          assert a[i] in a && b[j - |a|] in b;
        }
      }
    }
  }

  /** On a list the two links of every node undo each other and stay on the list. */
  lemma LinksAreInverse(head: ListEntry, entries: seq<ListEntry>, x: ListEntry)
    requires IsList(head, entries) && x in [head] + entries
    ensures x.flink != null && x.blink != null
    ensures x.flink in [head] + entries && x.blink in [head] + entries
    ensures x.flink.blink == x && x.blink.flink == x
  {
    var circle := Circle(head, entries);
    var i :| 0 <= i < |entries| + 1 && ([head] + entries)[i] == x;
    assert circle[i] == x && Linked(circle[i], circle[i + 1]);
    var j := if i == 0 then |entries| + 1 else i;
    assert circle[j] == x && Linked(circle[j - 1], circle[j]);
    assert circle[i + 1] == if i == |entries| then head else entries[i];
    assert circle[j - 1] == ([head] + entries)[j - 1];
  }

  /** The links alone decide which entries a list holds and in which order. */
  lemma ListIsUnique(head: ListEntry, a: seq<ListEntry>, b: seq<ListEntry>)
    requires IsList(head, a) && IsList(head, b)
    ensures a == b
  {
    SameStart(head, a, b, |a|);
    SameStart(head, b, a, |b|);
    if |a| == |b| {
      assert a == ([head] + a)[..|a| + 1][1..];
    } else if |a| < |b| {
      ClosesAgain(head, a, b);
    } else {
      ClosesAgain(head, b, a);
    }
  }

  lemma ClosesAgain(head: ListEntry, a: seq<ListEntry>, b: seq<ListEntry>)
    requires Chain(Circle(head, a)) && Chain(Circle(head, b)) && |a| < |b|
    requires ([head] + a)[..|a| + 1] == ([head] + b)[..|a| + 1]
    ensures ([head] + b)[|a| + 1] == ([head] + b)[0]
  {
    var n := |a|;
    assert ([head] + a)[..n + 1][n] == ([head] + b)[..n + 1][n];
    assert Linked(Circle(head, a)[n], Circle(head, a)[n + 1]);
    assert Linked(Circle(head, b)[n], Circle(head, b)[n + 1]);
  }

  lemma {:induction false} SameStart(head: ListEntry, a: seq<ListEntry>, b: seq<ListEntry>, k: nat)
    requires IsList(head, a) && IsList(head, b) && k <= |a|
    ensures k <= |b| ==> ([head] + a)[..k + 1] == ([head] + b)[..k + 1]
  {
    if 0 < k <= |b| {
      SameStart(head, a, b, k - 1);
      var x, y := [head] + a, [head] + b;
      assert x[k - 1] == x[..k][k - 1] == y[k - 1];
      assert Linked(Circle(head, a)[k - 1], Circle(head, a)[k]) && Linked(Circle(head, b)[k - 1], Circle(head, b)[k]);
      assert x[k] == y[k];
      assert x[..k + 1] == x[..k] + [x[k]] && y[..k + 1] == y[..k] + [y[k]];
    }
  }

  /** Any node of the circle may be taken as its head. */
  lemma Rotate(head: ListEntry, a: seq<ListEntry>, x: ListEntry, b: seq<ListEntry>)
    requires IsList(head, a + [x] + b)
    ensures IsList(x, b + [head] + a)
  {
    var left, right := [head] + a, [x] + b;
    assert Circle(head, a + [x] + b) == left + (right + [head]);
    ChainSplits(left, right + [head]);
    ChainSplits(right, [head]);
    assert Circle(x, b + [head] + a) == right + (left + [x]);
    assert (right + [head])[0] == x && (left + [x])[0] == head;
    ChainSplits(left, [x]);
    ChainSplits(right, left + [x]);
    assert [head] + (a + [x] + b) == left + right && [x] + (b + [head] + a) == right + left;
    DistinctSplits(left, right);
    DistinctSplits(right, left);
  }

  // ---------------------------------------------------------------- operations

  method InitializeListHead(listHead: ListEntry)
    modifies listHead
    ensures IsList(listHead, [])
  {
    listHead.blink := listHead;
    listHead.flink := listHead.blink;
  }

  method IsListEmpty(listHead: ListEntry, ghost entries: seq<ListEntry>) returns (r: bool)
    requires IsList(listHead, entries)
    ensures r <==> entries == []
  {
    Ends(listHead, entries);
    assert entries != [] ==> ([listHead] + entries)[1] != listHead;
    r := listHead.flink == listHead;
  }

  /** The head is linked to the first and the last node. */
  lemma Ends(head: ListEntry, entries: seq<ListEntry>)
    requires IsList(head, entries)
    ensures head.flink == if entries == [] then head else entries[0]
    ensures head.blink == if entries == [] then head else entries[|entries| - 1]
    ensures entries != [] ==> entries[0] != head && entries[|entries| - 1] != head
  {
    var circle := Circle(head, entries);
    assert Linked(circle[0], circle[1]);
    assert Linked(circle[|entries|], circle[|entries| + 1]);
    assert entries != [] ==> ([head] + entries)[1] != head && ([head] + entries)[|entries|] != head;
  }

  /** RemoveEntryList: the neighbours of the entry close up around it, and the answer is true
      exactly when only the head is left. */
  method RemoveEntryList(entry: ListEntry, ghost listHead: ListEntry, ghost a: seq<ListEntry>, ghost b: seq<ListEntry>)
    returns (r: bool)
    requires IsList(listHead, a + [entry] + b)
    modifies listHead, a, b
    ensures IsList(listHead, a + b)
    ensures entry !in [listHead] + (a + b) && entry.flink == old(entry.flink) && entry.blink == old(entry.blink)
    ensures r <==> a + b == []
  {
    ghost var left, right := [listHead] + a, b + [listHead];
    SplitsAround(listHead, a, entry, b);
    var flink := entry.flink;
    var blink := entry.blink;
    blink.flink := flink;
    flink.blink := blink;
    r := flink == blink;
    forall i | 0 <= i < |left| - 1 ensures Linked(left[i], left[i + 1]) {
      assert old(Linked(left[i], left[i + 1]));
    }
    forall i | 0 <= i < |right| - 1 ensures Linked(right[i], right[i + 1]) {
      assert old(Linked(right[i], right[i + 1]));
    }
    assert Circle(listHead, a + b) == left + right;
    ChainSplits(left, right);
  }

  /** A list around one of its entries: the chain up to it and the chain behind it. */
  lemma SplitsAround(head: ListEntry, a: seq<ListEntry>, x: ListEntry, b: seq<ListEntry>)
    requires IsList(head, a + [x] + b)
    ensures Chain([head] + a) && Chain(b + [head])
    ensures Linked(([head] + a)[|a|], x) && Linked(x, (b + [head])[0])
    ensures Distinct([head] + (a + b)) && x !in [head] + (a + b)
    ensures Distinct([head] + a) && Distinct(b + [head])
    ensures forall n | n in a :: n !in b
    ensures ([head] + a)[|a|] == (b + [head])[0] <==> a + b == []
  {
    var left, right := [head] + a, b + [head];
    assert Circle(head, a + [x] + b) == left + ([x] + right);
    ChainSplits(left, [x] + right);
    ChainSplits([x], right);
    assert [head] + (a + [x] + b) == left + ([x] + b);
    DistinctSplits(left, [x] + b);
    DistinctSplits([x], b);
    assert [head] + (a + b) == left + b;
    DistinctSplits(left, b);
    DistinctSplits(b, [head]);
    DistinctSplits([head], a);
    assert left[|a|] in left;
    if a != [] {
      assert left[|a|] == a[|a| - 1] && a[|a| - 1] in a;
    }
    if b != [] {
      assert right[0] in b;
    }
  }

  /** RemoveHeadList takes the first entry; an empty list answers its own head and stays. */
  method RemoveHeadList(listHead: ListEntry, ghost entries: seq<ListEntry>) returns (entry: ListEntry)
    requires IsList(listHead, entries)
    modifies listHead, entries
    ensures entries == [] ==> entry == listHead && IsList(listHead, [])
    ensures entries != [] ==> entry == entries[0] && IsList(listHead, entries[1..])
  {
    Ends(listHead, entries);
    entry := listHead.flink;
    if entries != [] {
      assert [] + [entry] + entries[1..] == entries;
      SplitsAround(listHead, [], entry, entries[1..]);
      assert [listHead] + ([] + entries[1..]) == [listHead] + entries[1..];
    }
    ghost var rest := if entries == [] then [] else entries[1..];
    var flink := entry.flink;
    listHead.flink := flink;
    flink.blink := listHead;
    if entries != [] {
      ghost var kept := rest + [listHead];
      forall i | 0 <= i < |kept| - 1 ensures Linked(kept[i], kept[i + 1]) {
        assert old(Linked(kept[i], kept[i + 1]));
      }
      assert Circle(listHead, rest) == [listHead] + (rest + [listHead]);
      ChainSplits([listHead], rest + [listHead]);
    }
  }

  /** RemoveTailList takes the last entry. */
  method RemoveTailList(listHead: ListEntry, ghost entries: seq<ListEntry>) returns (entry: ListEntry)
    requires IsList(listHead, entries)
    modifies listHead, entries
    ensures entries == [] ==> entry == listHead && IsList(listHead, [])
    ensures entries != [] ==> entry == entries[|entries| - 1] && IsList(listHead, entries[..|entries| - 1])
  {
    Ends(listHead, entries);
    entry := listHead.blink;
    ghost var rest := if entries == [] then [] else entries[..|entries| - 1];
    if entries != [] {
      assert rest + [entry] + [] == entries;
      SplitsAround(listHead, rest, entry, []);
      assert [listHead] + (rest + []) == [listHead] + rest;
    }
    var blink := entry.blink;
    listHead.blink := blink;
    blink.flink := listHead;
    if entries != [] {
      ghost var kept := [listHead] + rest;
      forall i | 0 <= i < |kept| - 1 ensures Linked(kept[i], kept[i + 1]) {
        assert old(Linked(kept[i], kept[i + 1]));
      }
      ChainSplits([listHead] + rest, [listHead]);
    }
  }

  /** InsertTailList puts a new entry at the end. */
  method InsertTailList(listHead: ListEntry, entry: ListEntry, ghost entries: seq<ListEntry>)
    requires IsList(listHead, entries) && entry !in [listHead] + entries
    modifies listHead, entries, entry
    ensures IsList(listHead, entries + [entry])
  {
    ghost var nodes := [listHead] + entries;
    Ends(listHead, entries);
    ChainSplits(nodes, [listHead]);
    var blink := listHead.blink;
    entry.flink := listHead;
    entry.blink := blink;
    blink.flink := entry;
    listHead.blink := entry;
    forall i | 0 <= i < |nodes| - 1 ensures Linked(nodes[i], nodes[i + 1]) {
      assert old(Linked(nodes[i], nodes[i + 1]));
    }
    assert Circle(listHead, entries + [entry]) == nodes + ([entry] + [listHead]);
    ChainSplits([entry], [listHead]);
    ChainSplits(nodes, [entry] + [listHead]);
    assert [listHead] + (entries + [entry]) == nodes + [entry];
    DistinctSplits(nodes, [entry]);
  }

  /** InsertHeadList puts a new entry at the front. */
  method InsertHeadList(listHead: ListEntry, entry: ListEntry, ghost entries: seq<ListEntry>)
    requires IsList(listHead, entries) && entry !in [listHead] + entries
    modifies listHead, entries, entry
    ensures IsList(listHead, [entry] + entries)
  {
    ghost var rest := entries + [listHead];
    Ends(listHead, entries);
    assert Circle(listHead, entries) == [listHead] + rest;
    ChainSplits([listHead], rest);
    DistinctSplits([listHead], entries);
    DistinctSplits(entries, [listHead]);
    var flink := listHead.flink;
    entry.flink := flink;
    entry.blink := listHead;
    flink.blink := entry;
    listHead.flink := entry;
    forall i | 0 <= i < |rest| - 1 ensures Linked(rest[i], rest[i + 1]) {
      assert old(Linked(rest[i], rest[i + 1]));
    }
    assert Circle(listHead, [entry] + entries) == [listHead] + ([entry] + rest);
    ChainSplits([entry], rest);
    ChainSplits([listHead], [entry] + rest);
    DistinctSplits([entry], entries);
    DistinctSplits([listHead], [entry] + entries);
  }

  /** AppendTailList splices a whole ring, seen from one of its nodes round, behind the last
      entry. */
  method AppendTailList(listHead: ListEntry, listToAppend: ListEntry,
                        ghost entries: seq<ListEntry>, ghost ring: seq<ListEntry>)
    requires IsList(listHead, entries) && IsList(listToAppend, ring)
    requires forall x | x in [listHead] + entries :: x !in [listToAppend] + ring
    modifies listHead, entries, listToAppend, ring
    ensures IsList(listHead, entries + ([listToAppend] + ring))
  {
    ghost var nodes, more := [listHead] + entries, [listToAppend] + ring;
    Ends(listHead, entries);
    Ends(listToAppend, ring);
    ChainSplits(nodes, [listHead]);
    ChainSplits(more, [listToAppend]);
    var listEnd := listHead.blink;
    ghost var moreEnd := listToAppend.blink;
    assert nodes[|nodes| - 1] == listEnd && more[|more| - 1] == moreEnd;
    assert listEnd in nodes && moreEnd in more && listToAppend in more && listHead in nodes;
    listHead.blink.flink := listToAppend;
    listHead.blink := listToAppend.blink;
    listToAppend.blink.flink := listHead;
    listToAppend.blink := listEnd;
    forall i | 0 <= i < |nodes| - 1 ensures Linked(nodes[i], nodes[i + 1]) {
      assert old(Linked(nodes[i], nodes[i + 1])) && nodes[i] in nodes && nodes[i + 1] in nodes;
    }
    forall i | 0 <= i < |more| - 1 ensures Linked(more[i], more[i + 1]) {
      assert old(Linked(more[i], more[i + 1])) && more[i] in more && more[i + 1] in more;
    }
    assert Circle(listHead, entries + more) == nodes + (more + [listHead]);
    ChainSplits(more, [listHead]);
    ChainSplits(nodes, more + [listHead]);
    assert [listHead] + (entries + more) == nodes + more;
    DistinctSplits(nodes, more);
  }
}
