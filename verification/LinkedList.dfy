/** The circular doubly linked lists of BaseLib (MdePkg/Library/BaseLib/LinkedList.c), as Bds uses
    them: the four operations that relink nodes, each proved against the sequence of nodes met
    when following the forward links once around.  The list head is an ordinary node of that
    sequence. */
module LinkedList {
  import opened Efi
  import opened BootModel

  /** LIST_ENTRY inside BDS_LOAD_OPTION_ENTRY; a list head carries no option. */
  class ListEntry {
    var forwardLink: ListEntry
    var backLink: ListEntry
    var option: Option<BdsOption>

    /** InitializeListHead on the new node. */
    constructor (option: Option<BdsOption>)
      ensures forwardLink == this && backLink == this && this.option == option
    {
      forwardLink, backLink, this.option := this, this, option;
    }
  }

  ghost function ForwardLinks(r: seq<ListEntry>): (f: seq<ListEntry>)
    reads r
    ensures |f| == |r|
    ensures forall i :: 0 <= i < |r| ==> f[i] == r[i].forwardLink
  {
    seq(|r|, i requires 0 <= i < |r| reads r => r[i].forwardLink)
  }

  ghost function BackLinks(r: seq<ListEntry>): (b: seq<ListEntry>)
    reads r
    ensures |b| == |r|
    ensures forall i :: 0 <= i < |r| ==> b[i] == r[i].backLink
  {
    seq(|r|, i requires 0 <= i < |r| reads r => r[i].backLink)
  }

  /** The neighbours of each node of a circle. */
  function Successors<T>(r: seq<T>): (s: seq<T>)
    requires |r| > 0
    ensures |s| == |r|
  {
    r[1..] + r[..1]
  }

  function Predecessors<T>(r: seq<T>): (s: seq<T>)
    requires |r| > 0
    ensures |s| == |r|
  {
    r[|r| - 1..] + r[..|r| - 1]
  }

  function Next(n: nat, i: nat): nat {
    if i + 1 == n then 0 else i + 1
  }

  function Prev(n: nat, i: nat): nat
    requires n > 0
  {
    if i == 0 then n - 1 else i - 1
  }

  /** r lists every node once, each linked to its neighbours both ways, the last to the first. */
  ghost predicate Ring(r: seq<ListEntry>)
    reads r
  {
    |r| > 0 && Distinct(r) && ForwardLinks(r) == Successors(r) && BackLinks(r) == Predecessors(r)
  }

  lemma RingNodes(r: seq<ListEntry>, i: nat)
    requires Ring(r) && i < |r|
    ensures r[i].forwardLink == r[Next(|r|, i)] && r[i].backLink == r[Prev(|r|, i)]
    ensures r[i].forwardLink in r && r[i].backLink in r
  {
    assert Successors(r)[i] == r[Next(|r|, i)] && Predecessors(r)[i] == r[Prev(|r|, i)];
  }

  lemma RingDistinct(r: seq<ListEntry>)
    requires Ring(r)
    ensures |r| > 0 && Distinct(r)
  {
  }

  lemma Apart(r: seq<ListEntry>, i: nat, j: nat)
    requires Distinct(r) && i < |r| && j < |r|
    ensures r[i] == r[j] <==> i == j
  {
  }

  lemma DistinctAfterRemove(r: seq<ListEntry>, k: nat)
    requires Distinct(r) && k < |r|
    ensures Distinct(RemoveAt(r, k)) && r[k] !in RemoveAt(r, k)
    ensures forall x :: x in RemoveAt(r, k) ==> x in r
  {
  }

  lemma DistinctAfterInsert(r: seq<ListEntry>, k: nat, entry: ListEntry)
    requires Distinct(r) && k <= |r| && entry !in r
    ensures Distinct(InsertAt(r, k, entry))
    ensures forall x :: x in InsertAt(r, k, entry) ==> x in r || x == entry
  {
  }

  // ----- relinking, as sequences

  lemma Inserted<T>(s: seq<T>, p: nat, x: T)
    requires p <= |s|
    ensures |InsertAt(s, p, x)| == |s| + 1
    ensures forall i {:trigger InsertAt(s, p, x)[i]} :: 0 <= i <= |s| ==>
              InsertAt(s, p, x)[i] == if i < p then s[i] else if i == p then x else s[i - 1]
  {
  }

  lemma Removed<T>(s: seq<T>, k: nat)
    requires k < |s|
    ensures |RemoveAt(s, k)| == |s| - 1
    ensures forall i {:trigger RemoveAt(s, k)[i]} :: 0 <= i < |s| - 1 ==>
              RemoveAt(s, k)[i] == if i < k then s[i] else s[i + 1]
  {
  }

  lemma Neighbours<T>(r: seq<T>)
    requires |r| > 0
    ensures |Successors(r)| == |Predecessors(r)| == |r|
    ensures forall i {:trigger Successors(r)[i]} :: 0 <= i < |r| ==> Successors(r)[i] == r[Next(|r|, i)]
    ensures forall i {:trigger Predecessors(r)[i]} :: 0 <= i < |r| ==> Predecessors(r)[i] == r[Prev(|r|, i)]
  {
  }

  /** Taking a node out: its neighbours are linked to each other. */
  lemma RemovedNeighbours<T>(r: seq<T>, k: nat)
    requires |r| > 1 && k < |r|
    ensures var n, s := |r|, RemoveAt(r, k);
            && RemoveAt(Successors(r)[Prev(n, k) := Successors(r)[k]], k) == Successors(s)
            && RemoveAt(Predecessors(r)[Next(n, k) := Predecessors(r)[k]], k) == Predecessors(s)
  {
    hide RemoveAt, Successors, Predecessors;
    Neighbours(r);
    Removed(r, k);
    Neighbours(RemoveAt(r, k));
    Removed(Successors(r)[Prev(|r|, k) := Successors(r)[k]], k);
    Removed(Predecessors(r)[Next(|r|, k) := Predecessors(r)[k]], k);
  }

  /** Putting a node in at position p >= 1, between two neighbours. */
  lemma InsertedNeighbours<T>(r: seq<T>, p: nat, entry: T)
    requires 1 <= p <= |r|
    ensures var s, q := InsertAt(r, p, entry), Next(|r|, p - 1);
            && InsertAt(Successors(r)[p - 1 := entry], p, r[q]) == Successors(s)
            && InsertAt(Predecessors(r)[q := entry], p, r[p - 1]) == Predecessors(s)
  {
    hide InsertAt, Successors, Predecessors;
    var q := Next(|r|, p - 1);
    Neighbours(r);
    Inserted(r, p, entry);
    Neighbours(InsertAt(r, p, entry));
    Inserted(Successors(r)[p - 1 := entry], p, r[q]);
    Inserted(Predecessors(r)[q := entry], p, r[p - 1]);
  }

  lemma LinksAfterRemove(r: seq<ListEntry>, k: nat)
    requires k < |r|
    ensures ForwardLinks(RemoveAt(r, k)) == RemoveAt(ForwardLinks(r), k)
    ensures BackLinks(RemoveAt(r, k)) == RemoveAt(BackLinks(r), k)
  {
  }

  lemma LinksAfterInsert(r: seq<ListEntry>, p: nat, entry: ListEntry)
    requires p <= |r|
    ensures ForwardLinks(InsertAt(r, p, entry)) == InsertAt(ForwardLinks(r), p, entry.forwardLink)
    ensures BackLinks(InsertAt(r, p, entry)) == InsertAt(BackLinks(r), p, entry.backLink)
  {
  }

  /** A ring whose two neighbours around position p, and no other node, already link to the new node. */
  lemma RingInserted(r: seq<ListEntry>, p: nat, entry: ListEntry)
    requires 1 <= p <= |r| && Distinct(r) && entry !in r
    requires entry.backLink == r[p - 1] && entry.forwardLink == r[Next(|r|, p - 1)]
    requires ForwardLinks(r) == Successors(r)[p - 1 := entry]
    requires BackLinks(r) == Predecessors(r)[Next(|r|, p - 1) := entry]
    ensures Ring(InsertAt(r, p, entry))
  {
    hide InsertAt, Distinct, Successors, Predecessors;
    InsertedNeighbours(r, p, entry);
    LinksAfterInsert(r, p, entry);
    DistinctAfterInsert(r, p, entry);
    Inserted(r, p, entry);
  }

  // ----- the operations

  method RemoveEntryList(entry: ListEntry, ghost r: seq<ListEntry>, ghost k: nat) returns (next: ListEntry)
    requires Ring(r) && |r| > 1 && k < |r| && r[k] == entry
    modifies entry.forwardLink`backLink, entry.backLink`forwardLink
    ensures Ring(RemoveAt(r, k))
    ensures next == r[Next(|r|, k)]
  {
    hide RemoveAt, Distinct, Successors, Predecessors;
    ghost var a, b := Prev(|r|, k), Next(|r|, k);
    RingNodes(r, k);
    Apart(r, k, a);
    Apart(r, k, b);
    ghost var f0, b0 := ForwardLinks(r), BackLinks(r);
    assert f0[k] == r[b] && b0[k] == r[a];
    entry.forwardLink.backLink := entry.backLink;
    entry.backLink.forwardLink := entry.forwardLink;
    next := entry.forwardLink;
    forall i | 0 <= i < |r|
      ensures ForwardLinks(r)[i] == f0[a := f0[k]][i] && BackLinks(r)[i] == b0[b := b0[k]][i]
    {
      Apart(r, i, a);
      Apart(r, i, b);
    }
    assert ForwardLinks(r) == f0[a := f0[k]] && BackLinks(r) == b0[b := b0[k]];
    RemovedNeighbours(r, k);
    LinksAfterRemove(r, k);
    DistinctAfterRemove(r, k);
  }

  /** Links entry in behind listHead, which may be any node of the ring. */
  method InsertHeadList(listHead: ListEntry, entry: ListEntry, ghost r: seq<ListEntry>, ghost k: nat)
    returns (head: ListEntry)
    requires Ring(r) && k < |r| && r[k] == listHead && entry !in r
    modifies entry`forwardLink, entry`backLink, listHead`forwardLink, listHead.forwardLink`backLink
    ensures Ring(InsertAt(r, k + 1, entry)) && head == listHead
  {
    hide InsertAt, Distinct, Successors, Predecessors;
    ghost var q := Next(|r|, k);
    RingNodes(r, k);
    ghost var f0, b0 := ForwardLinks(r), BackLinks(r);
    entry.forwardLink := listHead.forwardLink;
    entry.backLink := listHead;
    entry.forwardLink.backLink := entry;
    listHead.forwardLink := entry;
    head := listHead;
    forall i | 0 <= i < |r|
      ensures ForwardLinks(r)[i] == f0[k := entry][i] && BackLinks(r)[i] == b0[q := entry][i]
    {
      assert r[i] in r;
      Apart(r, i, k);
      Apart(r, i, q);
    }
    assert ForwardLinks(r) == f0[k := entry] && BackLinks(r) == b0[q := entry];
    RingInserted(r, k + 1, entry);
  }

  /** Links entry in before listHead; before the first node of r is behind its last. */
  method InsertTailList(listHead: ListEntry, entry: ListEntry, ghost r: seq<ListEntry>, ghost k: nat)
    returns (head: ListEntry)
    requires Ring(r) && k < |r| && r[k] == listHead && entry !in r
    modifies entry`forwardLink, entry`backLink, listHead`backLink, listHead.backLink`forwardLink
    ensures Ring(InsertAt(r, if k == 0 then |r| else k, entry)) && head == listHead
  {
    hide InsertAt, Distinct, Successors, Predecessors;
    ghost var p, a := if k == 0 then |r| else k, Prev(|r|, k);
    RingNodes(r, k);
    ghost var f0, b0 := ForwardLinks(r), BackLinks(r);
    entry.forwardLink := listHead;
    entry.backLink := listHead.backLink;
    entry.backLink.forwardLink := entry;
    listHead.backLink := entry;
    head := listHead;
    forall i | 0 <= i < |r|
      ensures ForwardLinks(r)[i] == f0[a := entry][i] && BackLinks(r)[i] == b0[k := entry][i]
    {
      assert r[i] in r;
      Apart(r, i, k);
      Apart(r, i, a);
    }
    assert ForwardLinks(r) == f0[a := entry] && BackLinks(r) == b0[k := entry];
    RingInserted(r, p, entry);
  }

  /** The three ways in which SwapListEntries moves its nodes: r1 is the ring without the first,
      r2 has it back behind the second, and then the second goes where the first was. */
  lemma SwapByMoves(r: seq<ListEntry>, i: nat, j: nat)
    requires 0 < i < |r| && 0 < j < |r| && i != j
    ensures var j1 := if j < i then j else j - 1;
            var r1 := RemoveAt(r, i);
            var r2 := InsertAt(r1, j1 + 1, r[i]);
            && j1 < |r1| && r1[j1] == r[j] && r2[j1] == r[j]
            && (j + 1 == i ==> InsertAt(r1, j1, r[i]) == Swap(r, i, j))
            && (j == i + 1 ==> r2 == Swap(r, i, j))
            && InsertAt(RemoveAt(r2, j1), i, r[j]) == Swap(r, i, j)
  {
    hide RemoveAt, InsertAt;
    var j1 := if j < i then j else j - 1;
    var r1 := RemoveAt(r, i);
    var r2 := InsertAt(r1, j1 + 1, r[i]);
    Removed(r, i);
    Inserted(r1, j1 + 1, r[i]);
    RemoveInserted(r1, j1, r[i]);
    if j + 1 == i {
      Inserted(r1, j1, r[i]);
      assert InsertAt(r1, j1, r[i]) == Swap(r, i, j);
    }
    if j == i + 1 {
      assert r2 == Swap(r, i, j);
    }
    Inserted(r1[j1 := r[i]], i, r[j]);
    assert InsertAt(r1[j1 := r[i]], i, r[j]) == Swap(r, i, j);
  }

  /** Inserting behind a node and removing that node replaces it. */
  lemma RemoveInserted<T>(s: seq<T>, k: nat, x: T)
    requires k < |s|
    ensures |InsertAt(s, k + 1, x)| == |s| + 1 && RemoveAt(InsertAt(s, k + 1, x), k) == s[k := x]
  {
    hide RemoveAt, InsertAt;
    Inserted(s, k + 1, x);
    Removed(InsertAt(s, k + 1, x), k);
  }

  /** Where the node behind the first and the node before it end up. */
  lemma SwapNeighbours(r: seq<ListEntry>, i: nat, j: nat)
    requires 0 < i < |r| && 0 < j < |r| && i != j
    ensures var j1, q := if j < i then j else j - 1, if i + 1 < |r| then i else 0;
            var r1 := RemoveAt(r, i);
            var r2 := InsertAt(r1, j1 + 1, r[i]);
            && q < |r1| && r1[q] == r[Next(|r|, i)] && r1[Prev(|r1|, q)] == r[i - 1]
            && (j != Next(|r|, i) ==> RemoveAt(r2, j1)[q] == r[Next(|r|, i)])
  {
    hide RemoveAt, InsertAt;
    var j1 := if j < i then j else j - 1;
    Removed(r, i);
    RemoveInserted(RemoveAt(r, i), j1, r[i]);
  }

  /** Exchanges the places of two nodes other than the head r[0], adjacent or not. */
  method SwapListEntries(firstEntry: ListEntry, secondEntry: ListEntry,
                         ghost r: seq<ListEntry>, ghost i: nat, ghost j: nat)
    returns (e: ListEntry)
    requires Ring(r) && 0 < i < |r| && 0 < j < |r| && r[i] == firstEntry && r[j] == secondEntry
    modifies r`forwardLink, r`backLink
    ensures Ring(Swap(r, i, j)) && e == secondEntry
  {
    hide RemoveAt, InsertAt, Swap, Ring;
    if firstEntry == secondEntry {
      SwapSame(r, i, j);
      return secondEntry;
    }
    SwapByMoves(r, i, j);
    SwapNeighbours(r, i, j);
    RingDistinct(r);
    Apart(r, j, Next(|r|, i));
    Apart(r, j, i - 1);
    RingNodes(r, i);
    DistinctAfterRemove(r, i);
    var ptr := RemoveEntryList(firstEntry, r, i);
    ghost var r1, q := RemoveAt(r, i), if i + 1 < |r| then i else 0;
    ghost var j1 := if j < i then j else j - 1;
    RingDistinct(r1);
    RingNodes(r1, q);
    RingNodes(r1, j1);
    if ptr.backLink == secondEntry {
      e := InsertTailList(secondEntry, firstEntry, r1, j1);
      return;
    }
    e := InsertHeadList(secondEntry, firstEntry, r1, j1);
    ghost var r2 := InsertAt(r1, j1 + 1, firstEntry);
    if ptr == e {
      return;
    }
    RingNodes(r2, j1);
    DistinctAfterInsert(r1, j1 + 1, firstEntry);
    DistinctAfterRemove(r2, j1);
    var _ := RemoveEntryList(secondEntry, r2, j1);
    ghost var r3 := RemoveAt(r2, j1);
    RingNodes(r3, q);
    var _ := InsertTailList(ptr, secondEntry, r3, q);
    e := secondEntry;
  }

  lemma SwapSame(r: seq<ListEntry>, i: nat, j: nat)
    requires i < |r| && j < |r| && r[i] == r[j]
    ensures Swap(r, i, j) == r
  {
  }
}
