/** What the boot manager's operations do, place by place: where the keys take an entry, which entry and which
    variable an operation changes and which it leaves, and what a load finds. */
module BootPlaces {
  import opened Words
  import opened Efi
  import opened LoadOption
  import opened BootModel
  import opened BootCoherence

  // ----- places in a list

  lemma RemovedPlaces<T>(s: seq<T>, i: nat, k: nat)
    requires i < |s| && k < |s| - 1
    ensures RemoveAt(s, i)[k] == if k < i then s[k] else s[k + 1]
  {
  }

  lemma InsertedPlaces<T>(s: seq<T>, i: nat, x: T)
    requires i <= |s|
    ensures InsertAt(s, i, x)[i] == x
    ensures forall k :: 0 <= k < |s| + 1 && k != i ==> InsertAt(s, i, x)[k] == if k < i then s[k] else s[k - 1]
  {
  }

  lemma SwappedPlaces<T>(s: seq<T>, i: nat, j: nat)
    requires i < |s| && j < |s|
    ensures forall k :: 0 <= k < |s| ==> Swap(s, i, j)[k] == if k == i then s[j] else if k == j then s[i] else s[k]
  {
  }

  // ----- moving an entry

  /** Carriage return, line feed and delete save; Escape (scan code 0x17) cancels. */
  predicate Saves(k: Key) {
    k.scanCode == 0 && k.unicodeChar in {0x0A, 0x0D, 0x7F}
  }

  predicate Ending(k: Key) {
    Saves(k) || k.scanCode == 0x17
  }

  /** Scan code 1, the up arrow, takes place p one towards the head of a list of n; scan code 2, the down
      arrow, one towards its tail; at the ends, and by any other key, it stays. */
  function NextPlace(n: nat, p: nat, k: Key): nat {
    if k.scanCode == 1 && p > 0 then p - 1
    else if k.scanCode == 2 && p + 1 < n then p + 1
    else p
  }

  function Place(n: nat, p: nat, keys: seq<Key>): (q: nat)
    requires p < n
    ensures q < n
    decreases |keys|
  {
    if keys == [] then p else Place(n, NextPlace(n, p, keys[0]), keys[1..])
  }

  /** The first key that ends the session, |keys| if there is none. */
  function FirstEnd(keys: seq<Key>): (m: nat)
    ensures m <= |keys| && (m < |keys| ==> Ending(keys[m])) && forall j :: 0 <= j < m ==> !Ending(keys[j])
  {
    if keys == [] || Ending(keys[0]) then 0 else 1 + FirstEnd(keys[1..])
  }

  /** The list with the entry at p moved to q. */
  function MoveTo(list: seq<BdsOption>, p: nat, q: nat): (r: seq<BdsOption>)
    requires p < |list| && q < |list|
    ensures |r| == |list|
  {
    InsertAt(RemoveAt(list, p), q, list[p])
  }

  lemma ActionIs(k: Key)
    ensures Action(k).SaveOrder? <==> Saves(k)
    ensures Action(k).CancelMove? <==> k.scanCode == 0x17
    ensures Action(k).MoveUp? <==> k.scanCode == 1
    ensures Action(k).MoveDown? <==> k.scanCode == 2
  {
  }

  lemma {:induction false} KeysTake(list: seq<BdsOption>, p: nat, keys: seq<Key>)
    requires p < |list|
    ensures var m, e := MoveEntry(list, p, keys), FirstEnd(keys);
            && m.pos == Place(|list|, p, keys[..e])
            && m.end == if e == |keys| then Interrupted else if Saves(keys[e]) then Saved else Cancelled
    decreases |keys|
  {
    hide Saves, Swap;
    if keys != [] {
      ActionIs(keys[0]);
      var q, e := NextPlace(|list|, p, keys[0]), FirstEnd(keys);
      if !Ending(keys[0]) {
        assert keys[..e][0] == keys[0] && keys[..e][1..] == keys[1..][..e - 1];
        if q == p {
          KeysTake(list, p, keys[1..]);
        } else {
          KeysTake(Swap(list, p, q), q, keys[1..]);
        }
      }
    }
  }

  /** Where a session leaves the entry, and how it ends: the keys before the first that ends it take it, step by
      step, to its place; the others keep their order; and it is saved, cancelled, or interrupted when the keys
      run out. */
  lemma SessionPlaces(list: seq<BdsOption>, p: nat, keys: seq<Key>)
    requires p < |list|
    ensures var m, e := MoveEntry(list, p, keys), FirstEnd(keys);
            && m.pos == Place(|list|, p, keys[..e]) && m.list == MoveTo(list, p, m.pos)
            && m.end == if e == |keys| then Interrupted else if Saves(keys[e]) then Saved else Cancelled
  {
    hide MoveEntry;
    KeysTake(list, p, keys);
    MovingKeepsTheRest(list, p, keys);
    var m := MoveEntry(list, p, keys);
    InsertAfterRemove(m.list, m.pos);
  }

  /** Moving an entry by one place exchanges two neighbours. */
  lemma Exchanged(list: seq<BdsOption>, p: nat)
    requires p + 1 < |list|
    ensures MoveTo(list, p + 1, p) == list[p := list[p + 1]][p + 1 := list[p]] == MoveTo(list, p, p + 1)
  {
  }

  lemma ExchangedIndices(list: seq<BdsOption>, p: nat)
    requires p + 1 < |list|
    ensures Indices(list[p := list[p + 1]][p + 1 := list[p]]) == Indices(list)[p := Indices(list)[p + 1]][p + 1 := Indices(list)[p]]
  {
  }

  /** Up and then carriage return: BootOrder is the old one with places p - 1 and p exchanged. */
  lemma UpSaved(s: Bds, p: nat, c: u16)
    requires Agrees(s) && 0 < p < |s.list|
    ensures var keys := [Key(1, c), Key(0, 0x0D)];
            && s.order.Some? && |s.order.value| == |s.list| && SaveDefined(s, MoveEntry(s.list, p, keys))
            && var t := MoveSession(s, p, keys, true);
            && t.order == Some(s.order.value[p - 1 := s.order.value[p]][p := s.order.value[p - 1]])
            && t.list == s.list[p - 1 := s.list[p]][p := s.list[p - 1]] && t.boot == s.boot
  {
    hide MoveEntry;
    var keys := [Key(1, c), Key(0, 0x0D)];
    OneKey(|s.list|, p, keys);
    SessionPlaces(s.list, p, keys);
    OrderIsIndices(s);
    SaveWritesPermutation(s, p, keys);
    var t := MoveSession(s, p, keys, true);
    Exchanged(s.list, p - 1);
    ExchangedIndices(s.list, p - 1);
  }

  /** Down and then carriage return: places p and p + 1 are exchanged. */
  lemma DownSaved(s: Bds, p: nat, c: u16)
    requires Agrees(s) && p + 1 < |s.list|
    ensures var keys := [Key(2, c), Key(0, 0x0D)];
            && s.order.Some? && |s.order.value| == |s.list| && SaveDefined(s, MoveEntry(s.list, p, keys))
            && var t := MoveSession(s, p, keys, true);
            && t.order == Some(s.order.value[p := s.order.value[p + 1]][p + 1 := s.order.value[p]])
            && t.list == s.list[p := s.list[p + 1]][p + 1 := s.list[p]] && t.boot == s.boot
  {
    hide MoveEntry;
    var keys := [Key(2, c), Key(0, 0x0D)];
    OneKey(|s.list|, p, keys);
    SessionPlaces(s.list, p, keys);
    OrderIsIndices(s);
    SaveWritesPermutation(s, p, keys);
    var t := MoveSession(s, p, keys, true);
    Exchanged(s.list, p);
    ExchangedIndices(s.list, p);
  }

  lemma OneKey(n: nat, p: nat, keys: seq<Key>)
    requires p < n && |keys| == 2 && !Ending(keys[0]) && Ending(keys[1])
    ensures FirstEnd(keys) == 1 && Place(n, p, keys[..1]) == NextPlace(n, p, keys[0])
  {
    assert FirstEnd(keys[1..]) == 0;
    assert keys[..1][1..] == [];
  }

  // ----- selecting

  predicate InRange(order: seq<u16>, n: nat) {
    1 <= n <= |order|
  }

  /** The k-th number typed is n, and the first in range; no input error comes before it. */
  predicate FirstInRange(order: seq<u16>, typed: seq<Option<nat>>, k: int, n: nat) {
    && 0 <= k < |typed| && typed[k] == Some(n) && InRange(order, n)
    && forall j :: 0 <= j < k ==> typed[j].Some? && !InRange(order, typed[j].value)
  }

  /** The number selected is the first typed that is in the range of BootOrder, if no input error comes before
      it; there is none without BootOrder. */
  lemma {:induction false} SelectedNumber(order: StoredOrder, typed: seq<Option<nat>>, n: nat)
    ensures SelectNumber(order, typed) == Some(n) <==> order.Some? && exists k :: FirstInRange(order.value, typed, k, n)
    decreases |typed|
  {
    if order.Some? && typed != [] && typed[0].Some? && !InRange(order.value, typed[0].value) {
      var rest := typed[1..];
      SelectedNumber(order, rest, n);
      if SelectNumber(order, rest) == Some(n) {
        var k :| FirstInRange(order.value, rest, k, n);
        assert typed[k + 1] == Some(n);
        forall j | 0 <= j < k + 1 ensures typed[j].Some? && !InRange(order.value, typed[j].value) {
          assert j > 0 ==> typed[j] == rest[j - 1];
        }
        assert FirstInRange(order.value, typed, k + 1, n);
      }
      if k :| FirstInRange(order.value, typed, k, n) {
        assert k > 0 && rest[k - 1] == Some(n);
        forall j | 0 <= j < k - 1 ensures rest[j].Some? && !InRange(order.value, rest[j].value) {
          assert rest[j] == typed[j + 1];
        }
        assert FirstInRange(order.value, rest, k - 1, n);
      }
    } else if order.Some? && typed != [] && typed[0] == Some(n) && InRange(order.value, n) {
      assert FirstInRange(order.value, typed, 0, n);
    }
  }

  // ----- adding, updating, removing

  /** Adding: a new last entry with the smallest free index and no attributes, in the list and in BootOrder if
      that write succeeds, and its Boot#### variable if that one does; nothing else changes. */
  lemma AddedPlaces(s: Bds, f: Fields, bootOk: bool, orderOk: bool)
    requires f.Valid() && |f.path| < 0x1_0000 && 2 * |f.description| + |f.path| + |f.optionalData| >= 4
    ensures var t, x := Add(s, f, bootOk, orderOk), CreatedOption(s.order, f).index;
            && |t.list| == |s.list| + (if orderOk then 1 else 0) && t.list[..|s.list|] == s.list
            && OrderSeq(t.order) == OrderSeq(s.order) + (if orderOk then [x] else [])
            && (forall y :: y != x ==> (y in t.boot <==> y in s.boot) && (y in s.boot ==> t.boot[y] == s.boot[y]))
            && (if bootOk then x in t.boot && Decode(t.boot[x]) == Some(f.(attributes := 0)) else t.boot == s.boot)
            && (orderOk ==> t.list[|s.list|].index == x && Decode(t.list[|s.list|].image) == Some(f.(attributes := 0)))
  {
    hide Encode, AllocateIndex;
    EncodingReads(f.(attributes := 0));
  }

  lemma EncodingReads(f: Fields)
    requires f.Valid() && |f.path| < 0x1_0000 && 2 * |f.description| + |f.path| + |f.optionalData| >= 4
    ensures Decode(Encode(f)) == Some(f)
  {
    DecodeOfEncode(f);
    assert f.path[..PathLength(f.path)] == f.path;
  }

  /** Updating: the entry keeps its place and its index, takes the new description, path and optional data, and
      keeps its attributes; only its Boot#### variable is written, BootOrder and the other entries stay. */
  lemma UpdatedPlaces(s: Bds, p: nat, f: Fields, bootOk: bool)
    requires p < |s.list| && f.Valid() && |f.path| < 0x1_0000 && 2 * |f.description| + |f.path| + |f.optionalData| >= 4
    ensures var t, x := Update(s, p, f, bootOk), s.list[p].index;
            && t.order == s.order && |t.list| == |s.list|
            && (forall k :: 0 <= k < |s.list| && k != p ==> t.list[k] == s.list[k])
            && t.list[p].index == x
            && Decode(t.list[p].image) == Some(f.(attributes := Attributes(s.list[p].image)))
            && (forall y :: y != x ==> (y in t.boot <==> y in s.boot) && (y in s.boot ==> t.boot[y] == s.boot[y]))
            && (if bootOk then x in t.boot && t.boot[x] == t.list[p].image else t.boot == s.boot)
  {
    hide Encode, Attributes;
    EncodingReads(f.(attributes := Attributes(s.list[p].image)));
  }

  /** The attributes of a load option are its first four bytes. */
  lemma AttributesAre(image: seq<u8>)
    requires |image| >= 4
    ensures Attributes(image) as int
         == image[0] as int + 0x100 * (image[1] as int) + 0x1_0000 * (image[2] as int) + 0x100_0000 * (image[3] as int)
  {
    var d := image[0..4];
    assert FromLe(d[4..]) == 0;
    assert FromLe(d[3..]) == d[3] + 256 * FromLe(d[3..][1..]) && d[3..][1..] == d[4..];
    assert FromLe(d[2..]) == d[2] + 256 * FromLe(d[2..][1..]) && d[2..][1..] == d[3..];
    assert FromLe(d[1..]) == d[1] + 256 * FromLe(d[1..][1..]) && d[1..][1..] == d[2..];
  }

  /** What BootOrder loses: the first place that holds the index, or its last place if none does. */
  lemma {:induction false} DroppedPlace(o: seq<u16>, x: u16) returns (i: nat)
    requires o != []
    ensures i < |o| && DropOne(o, x) == RemoveAt(o, i)
    ensures if x in o then o[i] == x && x !in o[..i] else i == |o| - 1
  {
    if |o| == 1 || o[0] == x {
      i := 0;
      assert RemoveAt(o, 0) == o[1..];
    } else {
      var j := DroppedPlace(o[1..], x);
      i := j + 1;
      assert o[..i] == [o[0]] + o[1..][..j];
      assert RemoveAt(o, i) == [o[0]] + RemoveAt(o[1..], j);
    }
  }

  /** Removing: the list loses the entry at its place, whatever becomes of the writes; Boot#### loses its index if
      that write succeeds, and nothing else. */
  lemma RemovedEntry(s: Bds, p: nat, orderOk: bool, bootOk: bool)
    requires p < |s.list|
    ensures var t, x := Remove(s, p, orderOk, bootOk), s.list[p].index;
            && t.list == s.list[..p] + s.list[p + 1..]
            && (forall y :: y in t.boot <==> y in s.boot && !(bootOk && y == x))
            && (forall y :: y in t.boot ==> t.boot[y] == s.boot[y])
            && (!orderOk || s.order.None? ==> t.order == s.order)
            && (orderOk && s.order.Some? ==> OrderSeq(t.order) == DropOne(s.order.value, x))
  {
    hide DropOne;
  }

  // ----- loading

  predicate Loadable(x: u16, boot: map<u16, seq<u8>>) {
    x in boot && |boot[x]| >= 12
  }

  function CountLoadable(o: seq<u16>, boot: map<u16, seq<u8>>): nat {
    if o == [] then 0 else (if Loadable(o[0], boot) then 1 else 0) + CountLoadable(o[1..], boot)
  }

  /** Each index of BootOrder with a Boot#### of at least twelve bytes becomes an entry with that image, behind
      those of the indices before it; the others are skipped, and there are no more entries. */
  lemma {:induction false} LoadedPlaces(o: seq<u16>, boot: map<u16, seq<u8>>, i: nat)
    requires i < |o|
    ensures |LoadFrom(o, boot)| == CountLoadable(o, boot)
    ensures Loadable(o[i], boot) ==>
              && CountLoadable(o[..i], boot) < |LoadFrom(o, boot)|
              && LoadFrom(o, boot)[CountLoadable(o[..i], boot)] == BdsOption(o[i], boot[o[i]])
    decreases |o|
  {
    LoadedCount(o, boot);
    if i > 0 {
      LoadedPlaces(o[1..], boot, i - 1);
      assert o[..i][0] == o[0] && o[..i][1..] == o[1..][..i - 1];
    }
  }

  lemma {:induction false} LoadedCount(o: seq<u16>, boot: map<u16, seq<u8>>)
    ensures |LoadFrom(o, boot)| == CountLoadable(o, boot)
  {
    if o != [] {
      LoadedCount(o[1..], boot);
    }
  }
}
