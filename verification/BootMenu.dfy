/** The boot manager's menu over the linked list itself: every operation relinks nodes and writes
    variables in place, and is proved to take the step of the state machine in BootModel.  The
    list is the sequence of nodes met along the forward links, and its options are read off
    that sequence. */
module BootMenu {
  import opened Words
  import opened Efi
  import opened LoadOption
  import opened BootModel
  import opened LinkedList
  import opened BootCoherence
  import opened BootPlaces

  lemma DistinctTail<T>(h: T, s: seq<T>)
    ensures Distinct([h] + s) ==> Distinct(s) && h !in s
  {
    if Distinct([h] + s) {
      forall i | 0 <= i < |s| ensures s[i] != h {
        assert ([h] + s)[0] != ([h] + s)[i + 1];
      }
      forall i, j | 0 <= i < j < |s| ensures s[i] != s[j] {
        assert ([h] + s)[i + 1] != ([h] + s)[j + 1];
      }
    }
  }

  lemma ConsRemove<T>(h: T, s: seq<T>, k: nat)
    requires k < |s|
    ensures RemoveAt([h] + s, k + 1) == [h] + RemoveAt(s, k)
  {
  }

  lemma ConsInsert<T>(h: T, s: seq<T>, k: nat, x: T)
    requires k <= |s|
    ensures InsertAt([h] + s, k + 1, x) == [h] + InsertAt(s, k, x)
  {
  }

  lemma NextOf(n: nat, i: nat)
    requires i < n
    ensures Next(n, i) == if i + 1 == n then 0 else i + 1
  {
  }

  lemma PrecedingStays<T>(h: T, s: seq<T>, p: nat)
    requires p < |s|
    ensures ([h] + RemoveAt(s, p))[p] == ([h] + s)[p]
  {
  }

  lemma ConsSwap<T>(h: T, s: seq<T>, i: nat, j: nat)
    requires i < |s| && j < |s|
    ensures Swap([h] + s, i + 1, j + 1) == [h] + Swap(s, i, j)
  {
  }

  lemma LoadNothing(o: seq<u16>, boot: map<u16, seq<u8>>)
    requires o == []
    ensures LoadFrom(o, boot) == []
  {
  }

  lemma SingletonRing(e: ListEntry)
    requires e.forwardLink == e && e.backLink == e
    ensures Ring([e])
  {
  }

  lemma LoadOne(o: seq<u16>, i: nat, boot: map<u16, seq<u8>>)
    requires i < |o|
    ensures LoadFrom(o[i..], boot)
            == (if o[i] in boot && |boot[o[i]]| >= SMALLEST_IMAGE then [BdsOption(o[i], boot[o[i]])] else [])
               + LoadFrom(o[i + 1..], boot)
  {
    assert o[i..][1..] == o[i + 1..];
  }

  lemma SwapElements<T>(s: seq<T>, i: nat, j: nat)
    requires i < |s| && j < |s|
    ensures forall x :: x in Swap(s, i, j) ==> x in s
  {
  }

  /** Deleting the first occurrence. */
  lemma {:induction false} DropOneFirst(o: seq<u16>, x: u16, i: nat)
    requires i < |o| && x !in o[..i]
    requires o[i] == x || i + 1 == |o|
    ensures DropOne(o, x) == RemoveAt(o, i)
  {
    if i == 0 {
      assert RemoveAt(o, 0) == o[1..];
    } else {
      assert o[0] == o[..i][0];
      assert o[1..][..i - 1] == o[..i][1..];
      DropOneFirst(o[1..], x, i - 1);
      assert RemoveAt(o, i) == [o[0]] + RemoveAt(o[1..], i - 1);
    }
  }

  /** BootOptionDelete's edit of the array it read: everything behind the first occurrence moves
      down by one. The last element is then cut off by the size written. */
  method DeleteIndex(bootOrder: array<u16>, x: u16)
    requires bootOrder.Length > 0
    modifies bootOrder
    ensures bootOrder[..bootOrder.Length - 1] == DropOne(old(bootOrder[..]), x)
  {
    hide DropOne, RemoveAt;
    ghost var o := bootOrder[..];
    var count := bootOrder.Length;
    var index := 0;
    while index < count
      invariant index <= count && x !in o[..index] && bootOrder[..] == o
    {
      if bootOrder[index] == x {
        DropOneFirst(o, x, index);
        ShiftDown(bootOrder, index);
        return;
      }
      index := index + 1;
    }
    DropOneFirst(o, x, count - 1);
    RemoveLast(o);
  }

  lemma RemoveLast<T>(s: seq<T>)
    requires s != []
    ensures RemoveAt(s, |s| - 1) == s[..|s| - 1]
  {
  }

  /** CopyMem of everything behind position i to that position. */
  method ShiftDown(bootOrder: array<u16>, i: nat)
    requires i < bootOrder.Length
    modifies bootOrder
    ensures bootOrder[..bootOrder.Length - 1] == RemoveAt(old(bootOrder[..]), i)
  {
    if i + 1 != bootOrder.Length {
      forall k | i <= k < bootOrder.Length - 1 {
        bootOrder[k] := bootOrder[k + 1];
      }
    }
  }

  /** BootOptionAllocateBootIndex. */
  method AllocateBootIndex(order: StoredOrder) returns (index: u16)
    ensures index == AllocateIndex(order)
  {
    if order.Some? {
      var bootOrder := order.value;
      var bootIndex := 0;
      while bootIndex <= 0xFFFF
        invariant bootIndex <= MAX_OPTIONS
        invariant FirstFree(bootOrder, bootIndex) == FirstFree(bootOrder, 0)
      {
        var found, i := false, 0;
        while i < |bootOrder| && !found
          invariant i <= |bootOrder|
          invariant found <==> bootIndex in bootOrder[..i]
        {
          found := bootOrder[i] == bootIndex;
          i := i + 1;
        }
        assert found <==> bootIndex in bootOrder by {
          if !found {
            assert bootOrder[..i] == bootOrder;
          }
        }
        if !found {
          return bootIndex;
        }
        bootIndex := bootIndex + 1;
      }
    }
    index := 0;
  }

  ghost predicate HaveOptions(nodes: seq<ListEntry>)
    reads nodes`option
  {
    forall i :: 0 <= i < |nodes| ==> nodes[i].option.Some?
  }

  ghost function OptionsOf(nodes: seq<ListEntry>): (l: seq<BdsOption>)
    reads nodes`option
    requires HaveOptions(nodes)
    ensures |l| == |nodes|
    ensures forall i :: 0 <= i < |l| ==> Some(l[i]) == nodes[i].option
  {
    if nodes == [] then [] else OptionsOf(nodes[..|nodes| - 1]) + [nodes[|nodes| - 1].option.value]
  }

  lemma {:induction false} OptionsRemove(nodes: seq<ListEntry>, p: nat)
    requires HaveOptions(nodes) && p < |nodes|
    ensures HaveOptions(RemoveAt(nodes, p)) && OptionsOf(RemoveAt(nodes, p)) == RemoveAt(OptionsOf(nodes), p)
  {
    var s := RemoveAt(nodes, p);
    assert forall i :: 0 <= i < |s| ==> s[i] == nodes[if i < p then i else i + 1];
    assert HaveOptions(s);
    SameOptions(s, RemoveAt(OptionsOf(nodes), p));
  }

  lemma {:induction false} OptionsInsert(nodes: seq<ListEntry>, p: nat, entry: ListEntry)
    requires HaveOptions(nodes) && p <= |nodes| && entry.option.Some?
    ensures HaveOptions(InsertAt(nodes, p, entry))
    ensures OptionsOf(InsertAt(nodes, p, entry)) == InsertAt(OptionsOf(nodes), p, entry.option.value)
  {
    var s := InsertAt(nodes, p, entry);
    assert forall i :: 0 <= i < |s| ==> s[i] == if i < p then nodes[i] else if i == p then entry else nodes[i - 1];
    assert HaveOptions(s);
    SameOptions(s, InsertAt(OptionsOf(nodes), p, entry.option.value));
  }

  lemma {:induction false} OptionsSwap(nodes: seq<ListEntry>, i: nat, j: nat)
    requires HaveOptions(nodes) && i < |nodes| && j < |nodes|
    ensures HaveOptions(Swap(nodes, i, j)) && OptionsOf(Swap(nodes, i, j)) == Swap(OptionsOf(nodes), i, j)
  {
    var s := Swap(nodes, i, j);
    assert HaveOptions(s);
    SameOptions(s, Swap(OptionsOf(nodes), i, j));
  }

  lemma {:induction false} SameOptions(nodes: seq<ListEntry>, l: seq<BdsOption>)
    requires |l| == |nodes| && forall i :: 0 <= i < |l| ==> Some(l[i]) == nodes[i].option
    ensures HaveOptions(nodes) && OptionsOf(nodes) == l
  {
    forall i | 0 <= i < |l| ensures OptionsOf(nodes)[i] == l[i] {
      assert Some(OptionsOf(nodes)[i]) == nodes[i].option;
    }
  }

  lemma OptionsOfNone(nodes: seq<ListEntry>)
    requires nodes == []
    ensures HaveOptions(nodes) && OptionsOf(nodes) == []
  {
  }

  lemma {:induction false} OptionsAt(nodes: seq<ListEntry>)
    requires HaveOptions(nodes)
    ensures |OptionsOf(nodes)| == |nodes|
    ensures forall i :: 0 <= i < |nodes| ==> Some(OptionsOf(nodes)[i]) == nodes[i].option
  {
  }

  function MovedTo(n: nat, q: nat, down: bool): nat {
    if down then (if q + 1 < n then q + 1 else q) else if q > 0 then q - 1 else q
  }

  lemma MoveOne(list: seq<BdsOption>, q: nat, keys: seq<Key>, k: nat)
    requires q < |list| && k < |keys|
    ensures var a := Action(keys[k]);
            MoveEntry(list, q, keys[k..]) ==
              if a.SaveOrder? then Moved(list, q, Saved)
              else if a.CancelMove? then Moved(list, q, Cancelled)
              else if a.Ignored? then MoveEntry(list, q, keys[k + 1..])
              else MoveEntry(Swap(list, q, MovedTo(|list|, q, a.MoveDown?)), MovedTo(|list|, q, a.MoveDown?), keys[k + 1..])
  {
    assert keys[k..][0] == keys[k] && keys[k..][1..] == keys[k + 1..];
    assert Swap(list, q, q) == list;
  }

  lemma NoKeys(list: seq<BdsOption>, q: nat, keys: seq<Key>)
    requires q < |list| && keys == []
    ensures MoveEntry(list, q, keys) == Moved(list, q, Interrupted)
  {
  }

  class BootManager {
    const head: ListEntry
    /** The entries behind the head, in order. */
    ghost var nodes: seq<ListEntry>
    var order: StoredOrder
    var boot: map<u16, seq<u8>>

    ghost predicate Valid()
      reads this, head, nodes
    {
      Ring([head] + nodes) && HaveOptions(nodes)
    }

    ghost function Options(): (l: seq<BdsOption>)
      reads this, head, nodes
      requires Valid()
      ensures |l| == |nodes|
    {
      OptionsOf(nodes)
    }

    ghost function Entries(): set<ListEntry>
      reads this
    {
      set x | x in nodes
    }

    ghost function Abs(): Bds
      reads this, head, nodes
      requires Valid()
    {
      Bds(Options(), order, boot)
    }

    /** BootOptionList. */
    constructor (order: StoredOrder, boot: map<u16, seq<u8>>)
      ensures Valid() && Abs() == Load(order, boot)
      ensures fresh(head) && fresh(nodes)
    {
      head := new ListEntry(None);
      nodes := [];
      this.order, this.boot := order, boot;
      new;
      hide Ring, LoadFrom;
      SingletonRing(head);
      assert [head] + nodes == [head];
      LoadEntries();
    }

    /** The loop of BootOptionList. */
    method LoadEntries()
      requires Valid() && nodes == []
      modifies this`nodes, head
      ensures Valid() && Options() == LoadFrom(OrderSeq(order), boot) && fresh(nodes)
    {
      hide Ring, LoadFrom, OptionsOf, HaveOptions;
      OptionsOfNone(nodes);
      if order.Some? {
        var bootOrder := order.value;
        var index := 0;
        assert bootOrder[0..] == bootOrder;
        while index < |bootOrder|
          invariant index <= |bootOrder|
          invariant Valid() && fresh(nodes)
          invariant Options() + LoadFrom(bootOrder[index..], boot) == LoadFrom(bootOrder, boot)
        {
          var x := bootOrder[index];
          ghost var l, rest := Options(), LoadFrom(bootOrder[index + 1..], boot);
          LoadOne(bootOrder, index, boot);
          if x in boot && |boot[x]| >= SMALLEST_IMAGE {
            AppendEntry(BdsOption(x, boot[x]));
            assert l + ([BdsOption(x, boot[x])] + rest) == Options() + rest;
          } else {
            assert l + ([] + rest) == l + rest;
          }
          index := index + 1;
        }
        LoadNothing(bootOrder[index..], boot);
      } else {
        LoadNothing([], boot);
      }
    }

    /** A new entry, by InsertTailList on the head. */
    method AppendEntry(o: BdsOption)
      requires Valid()
      modifies this`nodes, head, nodes
      ensures Valid() && Options() == old(Options()) + [o]
      ensures |nodes| == |old(nodes)| + 1 && nodes[..|old(nodes)|] == old(nodes) && fresh(nodes[|old(nodes)|])
    {
      hide Ring, InsertAt;
      var entry := new ListEntry(Some(o));
      ghost var ring := [head] + nodes;
      RingNodes(ring, 0);
      var _ := InsertTailList(head, entry, ring, 0);
      Inserted(ring, |ring|, entry);
      assert InsertAt(ring, |ring|, entry) == [head] + (nodes + [entry]);
      nodes := nodes + [entry];
    }

    /** SelectBootOption: asks until a number is in range, then walks the list to it. The entry
        stays null, uninitialised in C, if the list ends first. */
    method SelectBootOption(typed: seq<Option<nat>>) returns (status: EfiStatus, entry: ListEntry?)
      requires Valid()
      ensures status.Success? <==> SelectNumber(order, typed).Some?
      ensures status.NotFound? <==> order.None?
      ensures status.Success? ==>
                var n := SelectNumber(order, typed).value;
                if n <= |nodes| then entry == nodes[n - 1] else entry == null
    {
      entry := null;
      if order.None? {
        return NotFound, null;
      }
      var bootOptionCount := |order.value|;
      var selected, k := 0, 0;
      while selected == 0
        invariant k <= |typed| && selected <= bootOptionCount
        invariant selected == 0 ==> SelectNumber(order, typed) == SelectNumber(order, typed[k..])
        invariant selected != 0 ==> SelectNumber(order, typed) == Some(selected)
        decreases selected == 0, |typed| - k
      {
        if k == |typed| || typed[k].None? {
          return Aborted, null;
        }
        selected := typed[k].value;
        assert typed[k..][1..] == typed[k + 1..];
        k := k + 1;
        if selected == 0 || selected > bootOptionCount {
          selected := 0;
        }
      }
      entry := Walk(selected);
      status := Success;
    }

    /** The node numbered `selected` from one, found by following the forward links. */
    method Walk(selected: nat) returns (entry: ListEntry?)
      requires Valid() && selected > 0
      ensures if selected <= |nodes| then entry == nodes[selected - 1] else entry == null
    {
      hide Ring;
      ghost var ring := [head] + nodes;
      RingNodes(ring, 0);
      RingDistinct(ring);
      var index, e := 1, head.forwardLink;
      while e != head
        invariant 1 <= index <= |nodes| + 1 && index <= selected
        invariant e == ring[if index <= |nodes| then index else 0]
        decreases |nodes| + 1 - index
      {
        if index <= |nodes| {
          RingNodes(ring, index);
        }
        if index == selected {
          return e;
        }
        index := index + 1;
        e := e.forwardLink;
      }
      Apart(ring, if index <= |nodes| then index else 0, 0);
      entry := null;
    }

    /** BootOptionCreate: the Boot#### variable, then BootOrder; the status is that of the last write. */
    method CreateBootOption(f: Fields, bootOk: bool, orderOk: bool) returns (status: EfiStatus, o: BdsOption)
      modifies this`order, this`boot
      ensures o == CreatedOption(old(order), f)
      ensures boot == if bootOk then old(boot)[o.index := o.image] else old(boot)
      ensures order == if orderOk then Some(OrderSeq(old(order)) + [o.index]) else old(order)
      ensures status.Success? <==> orderOk
    {
      hide Encode, AllocateIndex;
      var efiLoadOption := SetFields(f.(attributes := 0));
      var index := AllocateBootIndex(order);
      o := BdsOption(index, efiLoadOption[..]);
      if bootOk {
        boot := boot[index := o.image];
      }
      if orderOk {
        var bootOrder := if order.Some? then order.value + [index] else [index];
        assert bootOrder == OrderSeq(order) + [index];
        order := Some(bootOrder);
      }
      status := if orderOk then Success else DeviceError;
    }

    /** BootMenuAddBootOption once the user has answered. */
    method AddBootOption(f: Fields, bootOk: bool, orderOk: bool) returns (status: EfiStatus)
      requires Valid()
      modifies this, head, nodes
      ensures Valid() && Abs() == Add(old(Abs()), f, bootOk, orderOk)
      ensures status.Success? <==> orderOk
      ensures fresh(nodes[|old(nodes)|..]) && |nodes| >= |old(nodes)| && nodes[..|old(nodes)|] == old(nodes)
    {
      hide Ring, CreatedOption, OptionsOf, HaveOptions, OrderSeq;
      var o;
      status, o := CreateBootOption(f, bootOk, orderOk);
      if status.Success? {
        AppendEntry(o);
      }
    }

    /** BootMenuUpdateBootOption once the user has answered. */
    method UpdateBootOption(typed: seq<Option<nat>>, f: Fields, bootOk: bool) returns (status: EfiStatus)
      requires Valid() && Step(Abs(), UpdateOption(typed, f, bootOk)).Some?
      modifies this`boot, nodes
      ensures Valid() && nodes == old(nodes)
      ensures Abs() == Step(old(Abs()), UpdateOption(typed, f, bootOk)).value
      ensures status.Success? <==> SelectNumber(order, typed).Some? && bootOk
    {
      hide Encode, Attributes, Ring, SelectNumber, OptionsOf, HaveOptions, ForwardLinks, BackLinks;
      var entry;
      status, entry := SelectBootOption(typed);
      if !status.Success? {
        return;
      }
      ghost var n := SelectNumber(order, typed).value;
      var option := entry.option.value;
      var attributes := Attributes(option.image);
      var efiLoadOption := SetFields(f.(attributes := attributes));
      SetOption(n - 1, entry, option.(image := efiLoadOption[..]));
      status := DeviceError;
      if bootOk {
        boot := boot[option.index := efiLoadOption[..]];
        status := Success;
      }
    }

    /** Replacing an entry's option leaves the links alone. */
    method SetOption(ghost p: nat, entry: ListEntry, o: BdsOption)
      requires Valid() && p < |nodes| && nodes[p] == entry
      modifies entry`option
      ensures Valid() && Options() == old(Options())[p := o]
    {
      hide Successors, Predecessors;
      ghost var ring, l := [head] + nodes, Options();
      entry.option := Some(o);
      assert ForwardLinks(ring) == old(ForwardLinks(ring)) && BackLinks(ring) == old(BackLinks(ring));
      forall i | 0 <= i < |nodes| ensures nodes[i].option == Some(l[p := o][i]) {
        assert ring[i + 1] == nodes[i];
        Apart(ring, i + 1, p + 1);
      }
    }

    /** BootMenuRemoveBootOption. */
    method RemoveBootOption(typed: seq<Option<nat>>, orderOk: bool, bootOk: bool) returns (status: EfiStatus)
      requires Valid() && Step(Abs(), RemoveOption(typed, orderOk, bootOk)).Some?
      modifies this, head, Entries()
      ensures Valid() && Abs() == Step(old(Abs()), RemoveOption(typed, orderOk, bootOk)).value
      ensures status.Success? <==> old(SelectNumber(order, typed)).Some?
      ensures Entries() <= old(Entries())
    {
      hide Ring, OptionsOf, HaveOptions, DropOne, SelectNumber, RemoveAt;
      var entry;
      status, entry := SelectBootOption(typed);
      if !status.Success? {
        return;
      }
      ghost var p := SelectNumber(order, typed).value - 1;
      var option := EntryOption(p, entry);
      Unlink(p, entry);
      Delete(option.index, orderOk, bootOk);
    }

    method EntryOption(ghost p: nat, entry: ListEntry) returns (o: BdsOption)
      requires Valid() && p < |nodes| && nodes[p] == entry
      ensures o == Options()[p]
    {
      hide Ring;
      o := entry.option.value;
    }

    /** RemoveEntryList on an entry of the list. */
    method Unlink(ghost p: nat, entry: ListEntry)
      requires Valid() && p < |nodes| && nodes[p] == entry
      modifies this`nodes, head, Entries()
      ensures Valid() && Options() == RemoveAt(old(Options()), p) && nodes == RemoveAt(old(nodes), p)
      ensures entry !in nodes && entry != head && entry.option == old(entry.option)
      ensures Entries() <= old(Entries())
    {
      hide Ring, OptionsOf, HaveOptions, RemoveAt;
      ghost var ring, l := [head] + nodes, Options();
      OptionsAt(nodes);
      RingNodes(ring, p + 1);
      RingDistinct(ring);
      DistinctAfterRemove(ring, p + 1);
      ConsRemove(head, nodes, p);
      DistinctTail(head, nodes);
      DistinctAfterRemove(nodes, p);
      var _ := RemoveEntryList(entry, ring, p + 1);
      SameOptions(nodes, l);
      OptionsRemove(nodes, p);
      nodes := RemoveAt(nodes, p);
    }

    /** BootOptionDelete: both writes are tried, whatever became of the first. */
    method Delete(index: u16, orderOk: bool, bootOk: bool)
      modifies this`order, this`boot
      ensures order == if old(order).Some? && orderOk then SetVariable(DropOne(old(order).value, index)) else old(order)
      ensures boot == if bootOk then old(boot) - {index} else old(boot)
    {
      if order.Some? {
        var o := order.value;
        var bootOrder := new u16[|o|](k requires 0 <= k < |o| => o[k]);
        assert bootOrder[..] == o;
        DeleteIndex(bootOrder, index);
        if orderOk {
          order := SetVariable(bootOrder[..bootOrder.Length - 1]);
        }
      }
      if bootOk {
        boot := boot - {index};
      }
    }

    /** The inner loops of BootMenuReorderBootOptions: arrow keys swap the selected entry with its
        neighbour until the user saves or cancels, or a key cannot be read.  Up (scan code 1) takes it one
        place towards the head, down (scan code 2) one towards the tail. */
    method MoveSelected(selected: ListEntry, keys: seq<Key>, ghost p: nat) returns (end: End, ghost q: nat)
      requires Valid() && p < |nodes| && nodes[p] == selected
      modifies this`nodes, head, Entries()
      ensures Valid() && q < |nodes| && nodes[q] == selected
      ensures RemoveAt(nodes, q) == RemoveAt(old(nodes), p)
      ensures MoveEntry(old(Options()), p, keys) == Moved(Options(), q, end)
      ensures var e := FirstEnd(keys);
              && q == Place(|nodes|, p, keys[..e])
              && end == if e == |keys| then Interrupted else if Saves(keys[e]) then Saved else Cancelled
      ensures Entries() <= old(Entries())
    {
      hide Ring, OptionsOf, HaveOptions, RemoveAt, Swap, MoveEntry, Place, FirstEnd, Saves;
      q := p;
      KeysTake(Options(), p, keys);
      ghost var all := MoveEntry(Options(), p, keys);
      var k := 0;
      assert keys[0..] == keys;
      while k < |keys|
        invariant k <= |keys|
        invariant Valid() && q < |nodes| && nodes[q] == selected
        invariant RemoveAt(nodes, q) == RemoveAt(old(nodes), p)
        invariant MoveEntry(Options(), q, keys[k..]) == all
        invariant Entries() <= old(Entries())
      {
        MoveOne(Options(), q, keys, k);
        var key := keys[k];
        k := k + 1;
        if key.scanCode == SCAN_NULL {
          if key.unicodeChar in {0x0A, 0x0D, 0x7F} {
            return Saved, q;
          }
        } else if key.scanCode == SCAN_UP || key.scanCode == SCAN_DOWN {
          q := TryMove(selected, key.scanCode == SCAN_DOWN, q);
        } else if key.scanCode == SCAN_ESC {
          return Cancelled, q;
        }
      }
      NoKeys(Options(), q, keys[k..]);
      end := Interrupted;
    }

    /** One arrow key: a swap, unless the neighbour is the list head. */
    method TryMove(selected: ListEntry, down: bool, ghost q: nat) returns (ghost q': nat)
      requires Valid() && q < |nodes| && nodes[q] == selected
      modifies this`nodes, head, Entries()
      ensures Valid() && q' < |nodes| && nodes[q'] == selected
      ensures |nodes| == |old(nodes)| && q' == MovedTo(|nodes|, q, down)
      ensures Options() == Swap(old(Options()), q, q')
      ensures RemoveAt(nodes, q') == RemoveAt(old(nodes), q)
      ensures Entries() <= old(Entries())
    {
      hide Ring, OptionsOf, HaveOptions, RemoveAt;
      var second, move := Neighbour(selected, down, q);
      q' := MovedTo(|nodes|, q, down);
      if move {
        SwapWith(selected, second, q, q');
      }
    }

    /** GetNextNode or GetPreviousNode, and whether it is an entry rather than the list head. */
    method Neighbour(selected: ListEntry, next: bool, ghost q: nat) returns (second: ListEntry, move: bool)
      requires Valid() && q < |nodes| && nodes[q] == selected
      ensures move <==> if next then q + 1 < |nodes| else q > 0
      ensures move ==> second == nodes[if next then q + 1 else q - 1]
    {
      hide Ring;
      ghost var ring := [head] + nodes;
      RingNodes(ring, q + 1);
      RingDistinct(ring);
      second := if next then selected.forwardLink else selected.backLink;
      move := second != head;
      Apart(ring, 0, if next then Next(|ring|, q + 1) else q);
    }

    method SwapWith(selected: ListEntry, second: ListEntry, ghost q: nat, ghost q': nat)
      requires Valid() && q < |nodes| && q' < |nodes| && nodes[q] == selected && nodes[q'] == second
      requires q' == q + 1 || q == q' + 1
      modifies this`nodes, head, Entries()
      ensures Valid() && nodes == Swap(old(nodes), q, q') && Options() == Swap(old(Options()), q, q')
      ensures nodes[q'] == selected && RemoveAt(nodes, q') == RemoveAt(old(nodes), q)
      ensures Entries() <= old(Entries())
    {
      hide Ring, OptionsOf, HaveOptions, RemoveAt, Swap;
      ghost var ring, l := [head] + nodes, Options();
      OptionsAt(nodes);
      ConsSwap(head, nodes, q, q');
      SwapAdjacentKeepsRest(nodes, q, q');
      SwapElements(nodes, q, q');
      var _ := SwapListEntries(selected, second, ring, q + 1, q' + 1);
      SameOptions(nodes, l);
      OptionsSwap(nodes, q, q');
      nodes := Swap(nodes, q, q');
    }

    /** Cancel: RemoveEntryList, then InsertHeadList behind the entry noted at the start. */
    method PutBack(selected: ListEntry, prev: ListEntry, ghost q: nat, ghost p: nat)
      requires Valid() && q < |nodes| && nodes[q] == selected && p < |nodes|
      requires prev == ([head] + RemoveAt(nodes, q))[p]
      modifies this`nodes, head, Entries()
      ensures Valid() && Options() == Restored(old(Options()), q, p)
      ensures Entries() <= old(Entries())
    {
      hide Ring, OptionsOf, HaveOptions, RemoveAt, InsertAt;
      var o := EntryOption(q, selected);
      Unlink(q, selected);
      Link(selected, prev, p, o);
    }

    /** InsertHeadList of a loose entry behind a node of the ring. */
    method Link(entry: ListEntry, prev: ListEntry, ghost p: nat, ghost o: BdsOption)
      requires Valid() && p <= |nodes| && prev == ([head] + nodes)[p]
      requires entry !in nodes && entry != head && entry.option == Some(o)
      modifies this`nodes, head, Entries(), entry`forwardLink, entry`backLink
      ensures Valid() && nodes == InsertAt(old(nodes), p, entry) && Options() == InsertAt(old(Options()), p, o)
      ensures Entries() <= old(Entries()) + {entry}
    {
      hide Ring, OptionsOf, HaveOptions, InsertAt;
      ghost var ring, l := [head] + nodes, Options();
      OptionsAt(nodes);
      RingNodes(ring, p);
      RingDistinct(ring);
      DistinctTail(head, nodes);
      DistinctAfterInsert(nodes, p, entry);
      ConsInsert(head, nodes, p, entry);
      var _ := InsertHeadList(prev, entry, ring, p);
      SameOptions(nodes, l);
      OptionsInsert(nodes, p, entry);
      nodes := InsertAt(nodes, p, entry);
    }

    /** Overwrites the BootOrder array just read with the indices met along the list, one for each
        of its elements. */
    method OverwriteOrder(bootOrder: array<u16>)
      requires Valid() && bootOrder.Length <= |nodes|
      modifies bootOrder
      ensures bootOrder[..] == old(Indices(Options()))[..bootOrder.Length]
    {
      hide Ring, OptionsOf, HaveOptions, Next, Prev;
      ghost var ring, l := [head] + nodes, Options();
      RingNodes(ring, 0);
      OptionsAt(nodes);
      NextOf(|ring|, 0);
      var entry := head.forwardLink;
      var index := 0;
      while index < bootOrder.Length
        invariant index <= bootOrder.Length
        invariant entry == if index < |nodes| then nodes[index] else head
        invariant bootOrder[..index] == Indices(l)[..index]
      {
        bootOrder[index] := entry.option.value.index;
        index := index + 1;
        FollowLink(index);
        entry := entry.forwardLink;
      }
    }

    lemma FollowLink(index: nat)
      requires Valid() && 0 < index <= |nodes|
      ensures nodes[index - 1].forwardLink == if index < |nodes| then nodes[index] else head
    {
      hide Ring, HaveOptions;
      RingNodes([head] + nodes, index);
    }

    /** Save: the order of the list becomes BootOrder, if the write succeeds. */
    method SaveBootOrder(setOk: bool)
      requires Valid() && order.Some? && |order.value| <= |nodes|
      modifies this`order
      ensures Valid() && Options() == old(Options())
      ensures order == if setOk then SetVariable(old(Indices(Options()))[..|old(order).value|]) else old(order)
    {
      hide Ring, OptionsOf, HaveOptions, Indices;
      var bootOrder := new u16[|order.value|](_ => 0);
      OverwriteOrder(bootOrder);
      if setOk {
        order := SetVariable(bootOrder[..]);
      }
    }

    /** Save, Cancel, or neither: a save that fails is cancelled. */
    method Conclude(selected: ListEntry, prevEntry: ListEntry, end: End, setOk: bool, ghost q: nat, ghost p: nat)
      requires Valid() && (end == Saved ==> order.Some? && |order.value| <= |nodes|)
      requires q < |nodes| && nodes[q] == selected && p < |nodes|
      requires prevEntry == ([head] + RemoveAt(nodes, q))[p]
      modifies this`nodes, this`order, head, Entries()
      ensures Valid() && Entries() <= old(Entries())
      ensures Abs() == Concluded(old(Abs()), Moved(old(Options()), q, end), p, setOk)
    {
      hide Ring, OptionsOf, HaveOptions, RemoveAt, Indices, SetVariable, Restored;
      var cancel := end == Cancelled;
      if end == Saved {
        SaveBootOrder(setOk);
        cancel := !setOk;
      }
      if cancel {
        PutBack(selected, prevEntry, q, p);
      }
    }

    lemma ConcludedIgnoresList(s: Bds, m: Moved, p: nat, setOk: bool)
      requires m.pos < |m.list| && p < |m.list| && SaveDefined(s, m)
      ensures Concluded(s.(list := m.list), m, p, setOk) == Concluded(s, m, p, setOk)
    {
    }

    /** One round of BootMenuReorderBootOptions, from the selected entry to Save, Cancel or a
        console error. */
    method ReorderOne(selected: ListEntry, keys: seq<Key>, setOk: bool, ghost p: nat) returns (end: End)
      requires Valid() && p < |nodes| && nodes[p] == selected
      requires SaveDefined(Abs(), MoveEntry(Options(), p, keys))
      modifies this`nodes, this`order, head, Entries()
      ensures Valid() && Abs() == MoveSession(old(Abs()), p, keys, setOk)
      ensures end == MoveEntry(old(Options()), p, keys).end
      ensures Entries() <= old(Entries())
    {
      hide Ring, OptionsOf, HaveOptions, RemoveAt, MoveEntry, Concluded;
      ConcludedIgnoresList(Abs(), MoveEntry(Options(), p, keys), p, setOk);
      RingNodes([head] + nodes, p + 1);
      PrecedingStays(head, nodes, p);
      var prevEntry := selected.backLink;
      ghost var q;
      end, q := MoveSelected(selected, keys, p);
      Conclude(selected, prevEntry, end, setOk, q, p);
    }

    /** BootMenuReorderBootOptions. */
    method ReorderBootOptions(sessions: seq<Session>)
      requires Valid() && Reorder(Abs(), sessions).Some?
      modifies this`nodes, this`order, head, Entries()
      ensures Valid() && Some(Abs()) == Reorder(old(Abs()), sessions)
      ensures Entries() <= old(Entries())
    {
      hide Ring, OptionsOf, HaveOptions, MoveEntry, SelectNumber, MoveSession;
      ghost var result := Reorder(Abs(), sessions);
      var k := 0;
      assert sessions[0..] == sessions;
      while k < |sessions|
        invariant k <= |sessions|
        invariant Valid() && Reorder(Abs(), sessions[k..]) == result
        invariant Entries() <= old(Entries())
      {
        assert sessions[k..][1..] == sessions[k + 1..];
        var session := sessions[k];
        var status, entry := SelectBootOption(session.typed);
        if !status.Success? {
          return;
        }
        ghost var p := SelectNumber(order, session.typed).value - 1;
        var end := ReorderOne(entry, session.keys, session.setOk, p);
        if end == Interrupted {
          return;
        }
        k := k + 1;
      }
    }
  }
}
