/** The list of boot options and the BootOrder/Boot#### variables stay in step: over whole runs,
    and, operation by operation, exactly when the variable writes go through. */
module BootCoherence {
  import opened Words
  import opened Efi
  import opened LoadOption
  import opened BootModel

  // ----- what coherence means

  /** BootOrder lists the options' indices in order, without repetition, and each option's
      Boot#### holds its image. */
  ghost predicate Agrees(s: Bds) {
    && s.order == SetVariable(Indices(s.list))
    && Distinct(Indices(s.list))
    && forall i :: 0 <= i < |s.list| ==> s.list[i].index in s.boot && s.boot[s.list[i].index] == s.list[i].image
  }

  /** Boot#### variables that no entry of the list names. */
  ghost function Orphans(s: Bds): set<u16> {
    set x | x in s.boot.Keys && x !in Indices(s.list)
  }

  ghost predicate Coherent(s: Bds) {
    Agrees(s) && Orphans(s) == {}
  }

  lemma IndexFound(list: seq<BdsOption>, x: u16)
    ensures x in Indices(list) <==> exists i :: 0 <= i < |list| && list[i].index == x
  {
    if x in Indices(list) {
      var i :| 0 <= i < |list| && Indices(list)[i] == x;
      assert list[i].index == x;
    }
    if i :| 0 <= i < |list| && list[i].index == x {
      assert Indices(list)[i] == x;
    }
  }

  lemma OrderIsIndices(s: Bds)
    requires Agrees(s)
    ensures OrderSeq(s.order) == Indices(s.list)
  {
  }

  // ----- allocation of an index

  ghost function Upto(n: nat): (s: set<int>)
    ensures forall x :: x in s <==> 0 <= x < n
  {
    if n == 0 then {} else Upto(n - 1) + {n - 1}
  }

  lemma {:induction false} UptoSize(n: nat)
    ensures |Upto(n)| == n
  {
    if n > 0 {
      UptoSize(n - 1);
    }
  }

  ghost function Elements(o: seq<u16>): set<int> {
    set i | 0 <= i < |o| :: o[i]
  }

  lemma {:induction false} ElementsSize(o: seq<u16>)
    ensures |Elements(o)| <= |o|
    ensures Distinct(o) ==> |Elements(o)| == |o|
  {
    if o != [] {
      var n := |o| - 1;
      assert Elements(o) == Elements(o[..n]) + {o[n]} by {
        forall x | x in Elements(o) ensures x in Elements(o[..n]) + {o[n]} {
          var i :| 0 <= i < |o| && o[i] == x;
          assert i < n ==> o[..n][i] == x;
        }
        forall x | x in Elements(o[..n]) ensures x in Elements(o) {
          var i :| 0 <= i < n && o[..n][i] == x;
          assert o[i] == x;
        }
      }
      ElementsSize(o[..n]);
      if Distinct(o) {
        forall i | 0 <= i < n ensures o[..n][i] != o[n] {
          assert o[..n][i] == o[i];
        }
      }
    }
  }

  lemma {:induction false} FirstFreeSearch(o: seq<u16>, i: nat)
    requires forall x: u16 :: x < i ==> x in o
    ensures FirstFree(o, i) in o ==> forall x: u16 :: x in o
    ensures FirstFree(o, i) !in o ==> forall x: u16 :: x < FirstFree(o, i) ==> x in o
    decreases MAX_OPTIONS - i
  {
    if i < MAX_OPTIONS && i in o {
      FirstFreeSearch(o, i + 1);
    }
  }

  /** The index given to a new option is not in BootOrder precisely when BootOrder leaves one free,
      and then it is the smallest. */
  lemma AllocatedIndexIsFresh(o: seq<u16>)
    requires Distinct(o)
    ensures FirstFree(o, 0) !in o <==> |o| < MAX_OPTIONS
    ensures FirstFree(o, 0) !in o ==> forall x: u16 :: x < FirstFree(o, 0) ==> x in o
  {
    FirstFreeSearch(o, 0);
    ElementsSize(o);
    UptoSize(MAX_OPTIONS);
    if FirstFree(o, 0) in o {
      forall x | x in Upto(MAX_OPTIONS) ensures x in Elements(o) {
        var y: u16 := x;
        assert y in o;
      }
      SubsetSize(Upto(MAX_OPTIONS), Elements(o));
    } else {
      var x := FirstFree(o, 0);
      assert Elements(o) <= Upto(MAX_OPTIONS) - {x};
      SubsetSize(Elements(o), Upto(MAX_OPTIONS) - {x});
    }
  }

  lemma SubsetSize(a: set<int>, b: set<int>)
    requires a <= b
    ensures |a| <= |b|
  {
    assert b == a + (b - a);
  }

  // ----- sequences

  lemma {:induction false} DropOneAt(o: seq<u16>, p: nat)
    requires p < |o| && Distinct(o)
    ensures DropOne(o, o[p]) == RemoveAt(o, p)
  {
    hide RemoveAt;
    RemoveAtHead(o, p);
    if |o| > 1 && p > 0 {
      var rest := o[1..];
      assert Distinct(rest) by {
        forall i, j | 0 <= i < j < |rest| ensures rest[i] != rest[j] {
          assert o[i + 1] != o[j + 1];
        }
      }
      DropOneAt(rest, p - 1);
    }
  }

  lemma RemoveAtHead(o: seq<u16>, p: nat)
    requires p < |o|
    ensures RemoveAt(o, p) == if p == 0 then o[1..] else [o[0]] + RemoveAt(o[1..], p - 1)
  {
  }

  lemma IndicesRemoveAt(list: seq<BdsOption>, p: nat)
    requires p < |list|
    ensures Indices(RemoveAt(list, p)) == RemoveAt(Indices(list), p)
  {
  }

  lemma DistinctRemoveAt<T(!new)>(s: seq<T>, p: nat)
    requires p < |s| && Distinct(s)
    ensures Distinct(RemoveAt(s, p))
    ensures forall x :: x in RemoveAt(s, p) <==> x in s && x != s[p]
  {
    var r := RemoveAt(s, p);
    forall x | x in s && x != s[p] ensures x in r {
      var i :| 0 <= i < |s| && s[i] == x;
      assert r[if i < p then i else i - 1] == x;
    }
  }

  // ----- add

  lemma AddKeepsAgreement(s: Bds, f: Fields)
    requires Agrees(s) && |s.list| < MAX_OPTIONS
    ensures Agrees(Add(s, f, true, true))
    ensures Orphans(Add(s, f, true, true)) <= Orphans(s)
  {
    hide Encode, FirstFree;
    var o := CreatedOption(s.order, f);
    var t := Add(s, f, true, true);
    OrderIsIndices(s);
    if s.order.Some? {
      AllocatedIndexIsFresh(s.order.value);
    }
    assert Indices(t.list) == Indices(s.list) + [o.index];
    forall i | 0 <= i < |t.list|
      ensures t.list[i].index in t.boot && t.boot[t.list[i].index] == t.list[i].image
    {
      assert i < |s.list| ==> Indices(s.list)[i] == t.list[i].index;
    }
  }

  /** Adding keeps the list and the variables in step exactly when a fresh index exists and both
      writes share one fate. When all 65536 indices are taken, index 0 is handed out again: only a
      write that changes nothing is harmless. */
  lemma AddIsCoherentIff(s: Bds, f: Fields, bootOk: bool, orderOk: bool)
    requires Coherent(s)
    ensures Coherent(Add(s, f, bootOk, orderOk)) <==>
              if |s.list| < MAX_OPTIONS then bootOk == orderOk
              else !orderOk && (!bootOk || (0 in s.boot && s.boot[0] == Encode(f.(attributes := 0))))
  {
    hide Encode, FirstFree;
    var o := CreatedOption(s.order, f);
    var t := Add(s, f, bootOk, orderOk);
    OrderIsIndices(s);
    if s.order.Some? {
      AllocatedIndexIsFresh(s.order.value);
    }
    assert o.index in Indices(s.list) <==> |s.list| >= MAX_OPTIONS;
    IndexFound(s.list, o.index);
    NamedKeys(s);
    if |s.list| < MAX_OPTIONS {
      assert o.index !in s.boot;
      if bootOk && orderOk {
        AddKeepsAgreement(s, f);
      } else if bootOk {
        assert o.index in Orphans(t);
      } else if orderOk {
        assert t.list[|s.list|].index !in t.boot;
      } else {
        assert t == s;
      }
    } else {
      AllTakenGivesZero(s.order.value);
      if orderOk {
        var i :| 0 <= i < |s.list| && s.list[i].index == o.index;
        assert Indices(t.list)[i] == Indices(t.list)[|s.list|];
      } else if bootOk {
        var i :| 0 <= i < |s.list| && s.list[i].index == 0;
        assert t.list == s.list && t.boot[0] == o.image;
        if o.image == s.boot[0] {
          assert t.boot == s.boot;
        } else {
          assert t.boot[t.list[i].index] != t.list[i].image;
        }
      } else {
        assert t == s;
      }
    }
  }

  lemma {:induction false} FirstFreeIsFreeOrZero(o: seq<u16>, i: nat)
    ensures FirstFree(o, i) == 0 || FirstFree(o, i) !in o
    decreases MAX_OPTIONS - i
  {
    if i < MAX_OPTIONS && i in o {
      FirstFreeIsFreeOrZero(o, i + 1);
    }
  }

  lemma AllTakenGivesZero(o: seq<u16>)
    requires Distinct(o) && |o| >= MAX_OPTIONS
    ensures FirstFree(o, 0) == 0
  {
    AllocatedIndexIsFresh(o);
    FirstFreeIsFreeOrZero(o, 0);
  }

  /** In a coherent state the Boot#### variables are exactly the list's. */
  lemma NamedKeys(s: Bds)
    requires Coherent(s)
    ensures forall x :: x in s.boot <==> x in Indices(s.list)
  {
    forall x ensures x in s.boot <==> x in Indices(s.list) {
      assert x in Orphans(s) <==> x in s.boot && x !in Indices(s.list);
      IndexFound(s.list, x);
    }
  }

  // ----- update

  lemma UpdateKeepsAgreement(s: Bds, p: nat, f: Fields)
    requires Agrees(s) && p < |s.list|
    ensures Agrees(Update(s, p, f, true))
    ensures Orphans(Update(s, p, f, true)) <= Orphans(s)
  {
    hide Encode, Attributes;
    var t := Update(s, p, f, true);
    assert Indices(t.list) == Indices(s.list);
    forall i | 0 <= i < |t.list|
      ensures t.list[i].index in t.boot && t.boot[t.list[i].index] == t.list[i].image
    {
      assert i != p ==> Indices(s.list)[i] != Indices(s.list)[p];
    }
  }

  lemma UpdateIsCoherentIff(s: Bds, p: nat, f: Fields, bootOk: bool)
    requires Coherent(s) && p < |s.list|
    ensures Coherent(Update(s, p, f, bootOk)) <==> bootOk || UpdatedOption(s.list[p], f) == s.list[p]
  {
    hide Encode, Attributes;
    var t := Update(s, p, f, bootOk);
    if bootOk {
      UpdateKeepsAgreement(s, p, f);
    } else if UpdatedOption(s.list[p], f) == s.list[p] {
      assert t == s;
    } else {
      assert t.list[p].image != t.boot[t.list[p].index];
    }
  }

  // ----- remove

  lemma RemoveKeepsAgreement(s: Bds, p: nat)
    requires Agrees(s) && p < |s.list|
    ensures Agrees(Remove(s, p, true, true))
    ensures Orphans(Remove(s, p, true, true)) <= Orphans(s)
  {
    hide DropOne;
    var t := Remove(s, p, true, true);
    OrderIsIndices(s);
    DropOneAt(Indices(s.list), p);
    IndicesRemoveAt(s.list, p);
    DistinctRemoveAt(Indices(s.list), p);
    forall i | 0 <= i < |t.list|
      ensures t.list[i].index in t.boot && t.boot[t.list[i].index] == t.list[i].image
    {
      var k := if i < p then i else i + 1;
      assert t.list[i] == s.list[k];
      assert Indices(s.list)[k] != Indices(s.list)[p];
    }
  }

  /** The list entry goes whatever happens to the variables, so both writes must succeed. */
  lemma RemoveIsCoherentIff(s: Bds, p: nat, orderOk: bool, bootOk: bool)
    requires Coherent(s) && p < |s.list|
    ensures Coherent(Remove(s, p, orderOk, bootOk)) <==> orderOk && bootOk
  {
    hide DropOne;
    var t := Remove(s, p, orderOk, bootOk);
    OrderIsIndices(s);
    IndicesRemoveAt(s.list, p);
    DistinctRemoveAt(Indices(s.list), p);
    assert Indices(s.list)[p] == s.list[p].index;
    if !orderOk {
      assert t.order == s.order && |Indices(t.list)| < |Indices(s.list)|;
    } else if !bootOk {
      assert s.list[p].index in Orphans(t);
    } else {
      RemoveKeepsAgreement(s, p);
    }
  }

  // ----- select

  /** Every number SelectBootOption accepts has an entry in the list. */
  lemma SelectFindsEntry(s: Bds, typed: seq<Option<nat>>)
    requires Agrees(s)
    ensures SelectNumber(s.order, typed).Some? ==> 1 <= SelectNumber(s.order, typed).value <= |s.list|
  {
    OrderIsIndices(s);
  }

  // ----- reorder

  lemma SwapAdjacentKeepsRest<T>(s: seq<T>, p: nat, q: nat)
    requires p < |s| && q < |s| && (q == p + 1 || p == q + 1)
    ensures Swap(s, p, q)[q] == s[p]
    ensures RemoveAt(Swap(s, p, q), q) == RemoveAt(s, p)
    ensures multiset(Swap(s, p, q)) == multiset(s)
  {
    assert RemoveAt(Swap(s, p, q), q) == RemoveAt(s, p);
  }

  /** The moved entry stays the one selected, and the list without it never changes. */
  lemma {:induction false} MovingKeepsTheRest(list: seq<BdsOption>, p: nat, keys: seq<Key>)
    requires p < |list|
    ensures var m := MoveEntry(list, p, keys);
            && m.list[m.pos] == list[p]
            && RemoveAt(m.list, m.pos) == RemoveAt(list, p)
            && multiset(m.list) == multiset(list)
    decreases |keys|
  {
    if keys != [] {
      match Action(keys[0])
      case MoveUp =>
        if p > 0 {
          SwapAdjacentKeepsRest(list, p, p - 1);
          MovingKeepsTheRest(Swap(list, p, p - 1), p - 1, keys[1..]);
        } else {
          MovingKeepsTheRest(list, p, keys[1..]);
        }
      case MoveDown =>
        if p + 1 < |list| {
          SwapAdjacentKeepsRest(list, p, p + 1);
          MovingKeepsTheRest(Swap(list, p, p + 1), p + 1, keys[1..]);
        } else {
          MovingKeepsTheRest(list, p, keys[1..]);
        }
      case Ignored => MovingKeepsTheRest(list, p, keys[1..]);
      case SaveOrder =>
      case CancelMove =>
    }
  }

  lemma InsertAfterRemove<T>(s: seq<T>, p: nat)
    requires p < |s|
    ensures InsertAt(RemoveAt(s, p), p, s[p]) == s
  {
  }

  /** Cancelling restores the original order after any moves, whatever the state was. */
  lemma CancelRestores(list: seq<BdsOption>, p: nat, keys: seq<Key>)
    requires p < |list|
    ensures Restored(MoveEntry(list, p, keys).list, MoveEntry(list, p, keys).pos, p) == list
  {
    hide MoveEntry;
    MovingKeepsTheRest(list, p, keys);
    InsertAfterRemove(list, p);
  }

  /** A failed save, or Escape, leaves list and variables as they were. */
  lemma UnsavedSessionChangesNothing(s: Bds, p: nat, keys: seq<Key>, setOk: bool)
    requires p < |s.list|
    requires var m := MoveEntry(s.list, p, keys);
             SaveDefined(s, m) && (m.end.Cancelled? || (m.end.Saved? && !setOk))
    ensures MoveSession(s, p, keys, setOk) == s
  {
    hide MoveEntry;
    CancelRestores(s.list, p, keys);
  }

  lemma SamePlaces(a: seq<BdsOption>, b: seq<BdsOption>)
    requires multiset(a) == multiset(b)
    ensures forall x :: x in a <==> x in b
    ensures forall x :: x in Indices(a) <==> x in Indices(b)
  {
    forall x ensures x in a <==> x in b {
      assert x in multiset(a) <==> x in a;
      assert x in multiset(b) <==> x in b;
    }
    forall x ensures x in Indices(a) <==> x in Indices(b) {
      IndexFound(a, x);
      IndexFound(b, x);
      if i :| 0 <= i < |a| && a[i].index == x {
        assert a[i] in b;
      }
      if i :| 0 <= i < |b| && b[i].index == x {
        assert b[i] in a;
      }
    }
  }

  lemma {:induction false} IndicesMultiset(list: seq<BdsOption>, p: nat, keys: seq<Key>)
    requires p < |list|
    ensures multiset(Indices(MoveEntry(list, p, keys).list)) == multiset(Indices(list))
    ensures Distinct(Indices(list)) ==> Distinct(Indices(MoveEntry(list, p, keys).list))
    decreases |keys|
  {
    hide Indices, Distinct, Swap;
    if keys != [] {
      match Action(keys[0])
      case MoveUp =>
        if p > 0 {
          IndicesSwap(list, p, p - 1);
          IndicesMultiset(Swap(list, p, p - 1), p - 1, keys[1..]);
        } else {
          IndicesMultiset(list, p, keys[1..]);
        }
      case MoveDown =>
        if p + 1 < |list| {
          IndicesSwap(list, p, p + 1);
          IndicesMultiset(Swap(list, p, p + 1), p + 1, keys[1..]);
        } else {
          IndicesMultiset(list, p, keys[1..]);
        }
      case Ignored => IndicesMultiset(list, p, keys[1..]);
      case SaveOrder =>
      case CancelMove =>
    }
  }

  lemma IndicesSwap(list: seq<BdsOption>, p: nat, q: nat)
    requires p < |list| && q < |list|
    ensures Indices(Swap(list, p, q)) == Swap(Indices(list), p, q)
    ensures multiset(Indices(Swap(list, p, q))) == multiset(Indices(list))
    ensures Distinct(Indices(list)) ==> Distinct(Indices(Swap(list, p, q)))
  {
    hide Distinct;
    assert Indices(Swap(list, p, q)) == Swap(Indices(list), p, q);
    DistinctSwap(Indices(list), p, q);
  }

  lemma DistinctSwap<T(!new)>(s: seq<T>, p: nat, q: nat)
    requires p < |s| && q < |s|
    ensures multiset(Swap(s, p, q)) == multiset(s)
    ensures Distinct(s) ==> Distinct(Swap(s, p, q))
  {
  }

  /** A successful save writes a permutation of the old BootOrder, the order of the list. */
  lemma SaveWritesPermutation(s: Bds, p: nat, keys: seq<Key>)
    requires Agrees(s) && p < |s.list|
    requires MoveEntry(s.list, p, keys).end.Saved?
    ensures var t := MoveSession(s, p, keys, true);
            && t.list == MoveEntry(s.list, p, keys).list
            && t.order == Some(Indices(t.list))
            && multiset(t.order.value) == multiset(s.order.value)
            && t.boot == s.boot
  {
    hide MoveEntry;
    OrderIsIndices(s);
    IndicesMultiset(s.list, p, keys);
    var list := MoveEntry(s.list, p, keys).list;
    assert Indices(list)[..|s.list|] == Indices(list);
  }

  lemma SessionKeepsAgreement(s: Bds, p: nat, keys: seq<Key>, setOk: bool)
    requires Agrees(s) && p < |s.list|
    requires !MoveEntry(s.list, p, keys).end.Interrupted?
    ensures s.order.Some? && |s.order.value| == |s.list|
    ensures Agrees(MoveSession(s, p, keys, setOk))
    ensures Orphans(MoveSession(s, p, keys, setOk)) == Orphans(s)
  {
    hide MoveEntry;
    OrderIsIndices(s);
    var m := MoveEntry(s.list, p, keys);
    if m.end.Saved? && setOk {
      SaveWritesPermutation(s, p, keys);
      MovingKeepsTheRest(s.list, p, keys);
      IndicesMultiset(s.list, p, keys);
      SamePlaces(m.list, s.list);
      forall i | 0 <= i < |m.list|
        ensures m.list[i].index in s.boot && s.boot[m.list[i].index] == m.list[i].image
      {
        assert m.list[i] in s.list;
      }
    } else {
      UnsavedSessionChangesNothing(s, p, keys, setOk);
    }
  }

  /** A session cut short by a console error is harmless only if the entry is back in its place. */
  lemma InterruptedSessionAgreesIff(s: Bds, p: nat, keys: seq<Key>, setOk: bool)
    requires Agrees(s) && p < |s.list|
    requires MoveEntry(s.list, p, keys).end.Interrupted?
    ensures s.order.Some? && |s.order.value| == |s.list|
    ensures Agrees(MoveSession(s, p, keys, setOk)) <==> MoveEntry(s.list, p, keys).pos == p
  {
    hide MoveEntry;
    OrderIsIndices(s);
    MovingKeepsTheRest(s.list, p, keys);
    var m := MoveEntry(s.list, p, keys);
    InsertAfterRemove(m.list, m.pos);
    InsertAfterRemove(s.list, p);
    if m.pos != p {
      assert Indices(m.list)[m.pos] == s.list[p].index == Indices(s.list)[p];
      assert Indices(s.list)[m.pos] != Indices(s.list)[p];
    }
  }

  /** The keys end the session. */
  predicate Ends(keys: seq<Key>) {
    keys != [] && (Action(keys[0]) in {SaveOrder, CancelMove} || Ends(keys[1..]))
  }

  lemma {:induction false} EndedSession(list: seq<BdsOption>, p: nat, keys: seq<Key>)
    requires p < |list|
    ensures Ends(keys) <==> !MoveEntry(list, p, keys).end.Interrupted?
    decreases |keys|
  {
    if keys != [] {
      match Action(keys[0])
      case MoveUp =>
        if p > 0 { EndedSession(Swap(list, p, p - 1), p - 1, keys[1..]); } else { EndedSession(list, p, keys[1..]); }
      case MoveDown =>
        if p + 1 < |list| { EndedSession(Swap(list, p, p + 1), p + 1, keys[1..]); } else { EndedSession(list, p, keys[1..]); }
      case Ignored => EndedSession(list, p, keys[1..]);
      case SaveOrder =>
      case CancelMove =>
    }
  }

  lemma {:induction false} ReorderKeepsAgreement(s: Bds, sessions: seq<Session>)
    requires Agrees(s)
    requires forall i :: 0 <= i < |sessions| ==> Ends(sessions[i].keys)
    ensures var t := Reorder(s, sessions);
            && t.Some? && Agrees(t.value) && Orphans(t.value) == Orphans(s)
            && t.value.boot == s.boot && |t.value.list| == |s.list|
    decreases |sessions|
  {
    hide MoveEntry, SelectNumber, Agrees, Orphans;
    if sessions != [] {
      var n := SelectNumber(s.order, sessions[0].typed);
      if n.Some? {
        SelectFindsEntry(s, sessions[0].typed);
        EndedSession(s.list, n.value - 1, sessions[0].keys);
        SessionKeepsAgreement(s, n.value - 1, sessions[0].keys, sessions[0].setOk);
        ReorderKeepsAgreement(MoveSession(s, n.value - 1, sessions[0].keys, sessions[0].setOk), sessions[1..]);
      }
    }
  }

  // ----- whole runs

  /** Variable writes of add, update and remove succeed, a fresh index exists for each new option,
      and reorder sessions are ended by Save (successful or not) or Cancel. */
  predicate Clean(s: Bds, e: Event) {
    match e
    case AddOption(_, bootOk, orderOk) => bootOk && orderOk && |s.list| < MAX_OPTIONS
    case UpdateOption(_, _, bootOk) => bootOk
    case RemoveOption(_, orderOk, bootOk) => orderOk && bootOk
    case ReorderOptions(sessions) => forall i :: 0 <= i < |sessions| ==> Ends(sessions[i].keys)
  }

  ghost predicate CleanRun(s: Bds, events: seq<Event>)
    decreases |events|
  {
    events == []
    || (Clean(s, events[0]) && (Step(s, events[0]).Some? ==> CleanRun(Step(s, events[0]).value, events[1..])))
  }

  lemma StepKeepsAgreement(s: Bds, e: Event)
    requires Agrees(s) && Clean(s, e)
    ensures Step(s, e).Some? && Agrees(Step(s, e).value) && Orphans(Step(s, e).value) <= Orphans(s)
  {
    hide Agrees, Orphans, SelectNumber, Add, Remove, Update, Reorder;
    match e
    case AddOption(f, _, _) => AddKeepsAgreement(s, f);
    case UpdateOption(typed, f, _) =>
      SelectFindsEntry(s, typed);
      var n := SelectNumber(s.order, typed);
      if n.Some? {
        UpdateKeepsAgreement(s, n.value - 1, f);
      }
    case RemoveOption(typed, _, _) =>
      SelectFindsEntry(s, typed);
      var n := SelectNumber(s.order, typed);
      if n.Some? {
        RemoveKeepsAgreement(s, n.value - 1);
      }
    case ReorderOptions(sessions) => ReorderKeepsAgreement(s, sessions);
  }

  /** Over any clean run list and variables stay in step, nothing undefined happens, and no
      Boot#### variable is left behind. */
  lemma {:induction false} RunStaysCoherent(s: Bds, events: seq<Event>)
    requires Agrees(s) && CleanRun(s, events)
    ensures var t := Run(s, events);
            t.Some? && Agrees(t.value) && Orphans(t.value) <= Orphans(s)
    decreases |events|
  {
    hide Agrees, Orphans, Step, Clean;
    if events != [] {
      StepKeepsAgreement(s, events[0]);
      RunStaysCoherent(Step(s, events[0]).value, events[1..]);
    }
  }

  // ----- loading

  predicate Usable(x: u16, boot: map<u16, seq<u8>>) {
    x in boot && |boot[x]| >= SMALLEST_IMAGE
  }

  lemma {:induction false} LoadedOptions(o: seq<u16>, boot: map<u16, seq<u8>>)
    ensures var l := LoadFrom(o, boot);
            && |l| <= |o|
            && (forall i :: 0 <= i < |l| ==> Usable(l[i].index, boot) && l[i].image == boot[l[i].index])
            && (|l| == |o| <==> forall i :: 0 <= i < |o| ==> Usable(o[i], boot))
            && (|l| == |o| ==> Indices(l) == o)
  {
    if o != [] {
      LoadedOptions(o[1..], boot);
      var rest, l := LoadFrom(o[1..], boot), LoadFrom(o, boot);
      if Usable(o[0], boot) {
        assert l == [BdsOption(o[0], boot[o[0]])] + rest;
        if |rest| == |o[1..]| {
          assert Indices(l) == [o[0]] + Indices(rest) == o;
          forall i | 0 <= i < |o| ensures Usable(o[i], boot) {
            assert i > 0 ==> o[i] == o[1..][i - 1];
          }
        } else {
          var i :| 0 <= i < |o[1..]| && !Usable(o[1..][i], boot);
          assert !Usable(o[i + 1], boot);
        }
      }
    }
  }

  /** A freshly loaded list agrees with the variables exactly when BootOrder repeats no index and
      every index it names has a Boot#### variable of at least the minimal size. */
  lemma LoadAgreesIff(order: StoredOrder, boot: map<u16, seq<u8>>)
    ensures Agrees(Load(order, boot)) <==>
              Distinct(OrderSeq(order)) && forall i :: 0 <= i < |OrderSeq(order)| ==> Usable(OrderSeq(order)[i], boot)
  {
    hide LoadFrom, Usable;
    var o := OrderSeq(order);
    LoadedOptions(o, boot);
    var l := LoadFrom(o, boot);
    if |l| == |o| {
      assert Indices(l) == o;
    } else {
      assert |OrderSeq(SetVariable(Indices(l)))| == |l|;
    }
    forall i | 0 <= i < |l| ensures l[i].index in boot {
      UsableMeans(l[i].index, boot);
    }
  }

  lemma UsableMeans(x: u16, boot: map<u16, seq<u8>>)
    ensures Usable(x, boot) ==> x in boot
  {
  }

  /** Reloading from the variables reproduces the list. */
  lemma ReloadIsIdentity(s: Bds)
    requires Agrees(s)
    requires forall i :: 0 <= i < |s.list| ==> |s.list[i].image| >= SMALLEST_IMAGE
    ensures Load(s.order, s.boot) == s
  {
    hide LoadFrom;
    OrderIsIndices(s);
    var o := Indices(s.list);
    LoadedOptions(o, s.boot);
    var l := LoadFrom(o, s.boot);
    forall i | 0 <= i < |o| ensures Usable(o[i], s.boot) {
      assert o[i] == s.list[i].index;
    }
    forall i | 0 <= i < |l| ensures l[i] == s.list[i] {
      assert Indices(l)[i] == o[i];
    }
  }

  /** End to end: an option added to a coherent list comes back, after a reload of the variables,
      as the last entry, and its Boot#### decodes to what the user entered. */
  lemma AddedOptionReloads(s: Bds, f: Fields)
    requires Agrees(s) && |s.list| < MAX_OPTIONS
    requires forall i :: 0 <= i < |s.list| ==> |s.list[i].image| >= SMALLEST_IMAGE
    requires f.Valid() && 4 <= |f.path| < TWO16
    ensures var t := Add(s, f, true, true);
            var loaded := Load(t.order, t.boot).list;
            && |loaded| == |s.list| + 1
            && loaded[..|s.list|] == s.list
            && Decode(loaded[|s.list|].image) == Some(f.(attributes := 0))
  {
    hide Decode, LoadFrom, FirstFree;
    var t := Add(s, f, true, true);
    AddKeepsAgreement(s, f);
    assert |Encode(f.(attributes := 0))| >= SMALLEST_IMAGE;
    ReloadIsIdentity(t);
    RoundTripIffShortPath(f.(attributes := 0));
  }
}
