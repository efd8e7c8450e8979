/** Exact accounting of GCD space: a state is exact if the space the driver owns is the union of its
    allocated windows.  For allocating, freeing and restarting, the conditions under which an exact
    state stays exact. */
module HostBridgeAccounting {
  import opened Words
  import opened Efi
  import opened Gcd
  import opened AcpiDescriptor
  import opened HostBridgeModel
  import opened HostBridgeSafety
  import opened HostBridgeDiscipline

  // ----- exactness of one column

  /** Everything owned is claimed by an allocated, non-empty node. */
  ghost predicate ColumnExact(col: seq<ResNode>, sp: GcdSpace) {
    && (forall a :: a in sp.owned ==> exists i :: 0 <= i < |col| && a in Claim(col[i]))
    && (forall i :: 0 <= i < |col| && col[i].status == ResAllocated ==> col[i].length > 0)
  }

  lemma ExactGrant(col: seq<ResNode>, sp: GcdSpace, i: nat, n: ResNode)
    requires ColumnExact(col, sp) && i < |col| && Claim(col[i]) == {} && n.length > 0
    ensures ColumnExact(col[i := n], sp.(owned := sp.owned + Claim(n)))
  {
    var col' := col[i := n];
    forall a | a in sp.owned + Claim(n)
      ensures exists j :: 0 <= j < |col'| && a in Claim(col'[j])
    {
      if a in Claim(n) {
        assert a in Claim(col'[i]);
      } else {
        var j :| 0 <= j < |col| && a in Claim(col[j]);
        assert j != i && col'[j] == col[j];
      }
    }
  }

  lemma ExactRelease(col: seq<ResNode>, sp: GcdSpace, i: nat, n: ResNode)
    requires ColumnExact(col, sp) && i < |col| && n.status != ResAllocated
    ensures ColumnExact(col[i := n], sp.(owned := sp.owned - Claim(col[i])))
  {
    var col' := col[i := n];
    forall a | a in sp.owned - Claim(col[i])
      ensures exists j :: 0 <= j < |col'| && a in Claim(col'[j])
    {
      var j :| 0 <= j < |col| && a in Claim(col[j]);
      assert j != i && col'[j] == col[j];
    }
  }

  /** A node that claims nothing may change in any way that keeps it claiming nothing. */
  lemma ExactIdleChange(col: seq<ResNode>, sp: GcdSpace, i: nat, n: ResNode)
    requires ColumnExact(col, sp) && i < |col| && col[i].status != ResAllocated && n.status != ResAllocated
    ensures ColumnExact(col[i := n], sp)
  {
    ExactRelease(col, sp, i, n);
    assert sp.owned - Claim(col[i]) == sp.owned;
  }

  ghost predicate Exact(h: Host)
    requires h.WellShaped()
  {
    ColumnExact(Column(h, TYPE_IO), h.io) && ColumnExact(Column(h, TYPE_MEM32), h.mem)
  }

  lemma ReplaceCellKeepsExact(h: Host, i: nat, idx: nat, n: ResNode, s: GcdSpace)
    requires h.WellShaped() && Exact(h) && i < |h.bridges| && idx <= TYPE_MEM32
    requires ColumnExact(Column(h, idx)[i := n], s)
    ensures Exact(h.WithSpace(idx, s).WithNode(i, idx, n))
  {
    hide ColumnExact;
    ColumnOfNode(h.WithSpace(idx, s), i, idx, n, TYPE_IO);
    ColumnOfNode(h.WithSpace(idx, s), i, idx, n, TYPE_MEM32);
    assert Column(h.WithSpace(idx, s), TYPE_IO) == Column(h, TYPE_IO);
    assert Column(h.WithSpace(idx, s), TYPE_MEM32) == Column(h, TYPE_MEM32);
  }

  /** An allocated window of an exact state is owned and not empty, and no other node claims it. */
  lemma AllocatedWindow(h: Host, lim: Limits, i: nat, idx: nat)
    requires Inv(h, lim) && Exact(h) && i < |h.bridges| && idx < TYPE_BUS && Allocated(h, i, idx)
    ensures idx <= TYPE_MEM32
    ensures var n := h.Node(i, idx);
            && n.length > 0 && n.base in Claim(n) && Claim(n) <= h.Space(idx).owned
            && NodeOk(n)
            && forall j :: 0 <= j < |h.bridges| && j != i ==> Claim(h.Node(j, idx)) !! Claim(n)
  {
    assert Quiet(h.bridges[i]);
    var col := Column(h, idx);
    assert forall j :: 0 <= j < |h.bridges| ==> col[j] == h.Node(j, idx);
    forall j | 0 <= j < |h.bridges| && j != i ensures Claim(h.Node(j, idx)) !! Claim(h.Node(i, idx)) {
      assert if j < i then Claim(col[j]) !! Claim(col[i]) else Claim(col[i]) !! Claim(col[j]);
    }
  }

  // ----- lost addresses

  /** Owned, but claimed by no node: nothing will ever free it. */
  ghost predicate Lost(h: Host, idx: nat, a: int)
    requires h.WellShaped() && idx <= TYPE_MEM32
  {
    a in h.Space(idx).owned && forall i :: 0 <= i < |h.bridges| ==> a !in Claim(h.Node(i, idx))
  }

  lemma LostIsNotExact(h: Host, idx: nat, a: int)
    requires h.WellShaped() && idx <= TYPE_MEM32 && Lost(h, idx, a)
    ensures !Exact(h)
  {
    assert forall i :: 0 <= i < |h.bridges| ==> Column(h, idx)[i] == h.Node(i, idx);
  }

  lemma NoneAllocatedOwnsNothing(h: Host)
    requires h.WellShaped() && Exact(h) && NoneAllocated(h)
    ensures h.io.owned == {} && h.mem.owned == {}
  {
    forall idx, i | 0 <= idx <= TYPE_MEM32 && 0 <= i < |h.bridges|
      ensures Claim(Column(h, idx)[i]) == {}
    {
      assert Column(h, idx)[i] == h.Node(i, idx) && !Allocated(h, i, idx);
    }
    assert forall a :: a !in h.io.owned;
    assert forall a :: a !in h.mem.owned;
  }

  /** A state that owns nothing and has no allocated node is exact. */
  lemma IdleIsExact(h: Host)
    requires h.WellShaped() && NoneAllocated(h) && h.io.owned == {} && h.mem.owned == {}
    ensures Exact(h)
  {
    forall idx, i | 0 <= idx <= TYPE_MEM32 && 0 <= i < |h.bridges|
      ensures Column(h, idx)[i].status != ResAllocated
    {
      assert Column(h, idx)[i] == h.Node(i, idx) && !Allocated(h, i, idx);
    }
  }

  // ----- AllocateResources

  lemma AllocNodeKeepsExact(h: Host, lim: Limits, ret: EfiStatus, i: nat, idx: nat, answer: Answer)
    requires h.WellShaped() && Inv(h, lim) && Exact(h) && i < |h.bridges| && idx < TYPE_BUS
    requires Allocated(h, i, idx) ==> answer == Refuse(OutOfResources)
    ensures Exact(AllocNode(h, lim, ret, i, idx, answer).0)
  {
    hide Inv, Exact, AllocNode;
    if Allocated(h, i, idx) {
      AllocatedWindow(h, lim, i, idx);
      OutOfResourcesKeeps(h, lim, ret, i, idx);
    } else {
      AllocIdleKeepsExact(h, lim, ret, i, idx, answer);
    }
  }

  lemma AllocIdleKeepsExact(h: Host, lim: Limits, ret: EfiStatus, i: nat, idx: nat, answer: Answer)
    requires h.WellShaped() && Exact(h) && i < |h.bridges| && idx < TYPE_BUS && !Allocated(h, i, idx)
    ensures Exact(AllocNode(h, lim, ret, i, idx, answer).0)
  {
    hide Exact, ColumnExact, Column, AllocBits, Host.WithNode, Host.WithSpace;
    var n := h.Node(i, idx);
    if n.status != ResNone && idx <= TYPE_MEM32 {
      ExactColumns(h, i, idx);
      var (s, st, base) := Allocate(h.Space(idx), AllocBits(idx, n.alignment), n.length, Limit(lim, idx), answer);
      if st.Success? {
        var n' := n.(base := base, status := ResAllocated);
        ExactGrant(Column(h, idx), h.Space(idx), i, n');
        ReplaceCellKeepsExact(h, i, idx, n', s);
      } else if st != OutOfResources {
        var n' := n.(length := 0);
        ExactIdleChange(Column(h, idx), h.Space(idx), i, n');
        ReplaceCellKeepsExact(h, i, idx, n', h.Space(idx));
        SameSpace(h, idx);
      }
    }
  }

  lemma ExactColumns(h: Host, i: nat, idx: nat)
    requires h.WellShaped() && Exact(h) && i < |h.bridges| && idx <= TYPE_MEM32
    ensures ColumnExact(Column(h, idx), h.Space(idx)) && Column(h, idx)[i] == h.Node(i, idx)
  {
  }

  lemma SameSpace(h: Host, idx: nat)
    ensures h.WithSpace(idx, h.Space(idx)) == h
  {
  }

  lemma OutOfResourcesKeeps(h: Host, lim: Limits, ret: EfiStatus, i: nat, idx: nat)
    requires h.WellShaped() && i < |h.bridges| && idx <= TYPE_MEM32
    requires h.Node(i, idx).length > 0 && NodeOk(h.Node(i, idx))
    ensures AllocNode(h, lim, ret, i, idx, Refuse(OutOfResources)).0 == h
  {
  }

  /** Nodes not yet visited are as they were. */
  lemma {:induction false} AllocPrefixLocal(h: Host, lim: Limits, answers: seq<Answer>, k: nat, i: nat, idx: nat)
    requires h.WellShaped() && k <= TYPE_BUS * |h.bridges|
    requires i < |h.bridges| && idx < TYPE_BUS && k <= TYPE_BUS * i + idx
    ensures AllocPrefix(h, lim, answers, k).0.Node(i, idx) == h.Node(i, idx)
    decreases k
  {
    hide AllocNode, AllocPrefix, AnswerAt, Host.Node, Host.WellShaped, Claim;
    if k == 0 {
      AllocPrefixZero(h, lim, answers);
    } else {
      AllocPrefixLocal(h, lim, answers, k - 1, i, idx);
      var j, t := AllocPrefixStep(h, lim, answers, k);
      var p := AllocPrefix(h, lim, answers, k - 1);
      AllocNodeEffect(p.0, lim, p.1, j, t, AnswerAt(answers, k - 1));
    }
  }

  lemma AllocAnswerOk(h: Host, lim: Limits, answers: seq<Answer>, i: nat, idx: nat, p: Host)
    requires Inv(h, lim) && Exact(h) && AllocateDropsNothing(h, answers) && i < |h.bridges| && idx < TYPE_BUS
    requires p.WellShaped() && i < |p.bridges| && p.Node(i, idx) == h.Node(i, idx)
    ensures Allocated(p, i, idx) ==> AnswerAt(answers, TYPE_BUS * i + idx) == Refuse(OutOfResources)
  {
    hide Exact, AnswerAt;
    if Allocated(h, i, idx) {
      AllocatedWindow(h, lim, i, idx);
    }
  }

  lemma {:induction false} AllocPrefixKeepsExact(h: Host, lim: Limits, answers: seq<Answer>, k: nat)
    requires h.WellShaped() && Inv(h, lim) && Exact(h) && AllocateDropsNothing(h, answers) && k <= TYPE_BUS * |h.bridges|
    ensures Exact(AllocPrefix(h, lim, answers, k).0)
    decreases k
  {
    hide Inv, Exact, AllocNode, AllocPrefix, AllocateDropsNothing, AnswerAt, Host.Node, Host.WellShaped, Allocated;
    if k == 0 {
      AllocPrefixZero(h, lim, answers);
    } else {
      AllocPrefixKeepsExact(h, lim, answers, k - 1);
      AllocPrefixKeepsInv(h, lim, answers, k - 1);
      var i, idx := AllocPrefixStep(h, lim, answers, k);
      AllocPrefixLocal(h, lim, answers, k - 1, i, idx);
      var p := AllocPrefix(h, lim, answers, k - 1);
      AllocAnswerOk(h, lim, answers, i, idx, p.0);
      AllocNodeKeepsExact(p.0, lim, p.1, i, idx, AnswerAt(answers, k - 1));
    }
  }

  /** What allocation at one node can do: new claims come from what was free, other nodes stay, and
      nothing owned is given up. */
  lemma AllocNodeEffect(h: Host, lim: Limits, ret: EfiStatus, i: nat, t: nat, answer: Answer)
    requires h.WellShaped() && i < |h.bridges| && t < TYPE_BUS
    ensures var h' := AllocNode(h, lim, ret, i, t, answer).0;
            && |h'.bridges| == |h.bridges|
            && (forall j, u :: 0 <= j < |h.bridges| && 0 <= u < TYPE_MAX && (j != i || u != t) ==> h'.Node(j, u) == h.Node(j, u))
            && Claim(h'.Node(i, t)) <= Claim(h.Node(i, t)) + (h.Space(t).pool - h.Space(t).owned)
            && h.io.owned <= h'.io.owned && h.mem.owned <= h'.mem.owned
  {
    hide AllocBits, Allocate, Claim;
    AllocClaim(h, lim, ret, i, t, answer);
    AllocOwned(h, lim, ret, i, t, answer);
  }

  lemma AllocOwned(h: Host, lim: Limits, ret: EfiStatus, i: nat, t: nat, answer: Answer)
    requires h.WellShaped() && i < |h.bridges| && t < TYPE_BUS
    ensures var h' := AllocNode(h, lim, ret, i, t, answer).0;
            h.io.owned <= h'.io.owned && h.mem.owned <= h'.mem.owned
  {
    hide AllocBits, Grantable, Refusal;
  }

  lemma AllocClaim(h: Host, lim: Limits, ret: EfiStatus, i: nat, t: nat, answer: Answer)
    requires h.WellShaped() && i < |h.bridges| && t < TYPE_BUS
    ensures var h' := AllocNode(h, lim, ret, i, t, answer).0;
            Claim(h'.Node(i, t)) <= Claim(h.Node(i, t)) + (h.Space(t).pool - h.Space(t).owned)
  {
    hide AllocBits, Refusal;
    assert Span(h.Node(i, t).base, 0) == {};
  }

  /** An address that is lost stays lost. */
  lemma AllocNodeKeepsLost(h: Host, lim: Limits, ret: EfiStatus, i: nat, t: nat, answer: Answer, idx: nat, a: int)
    requires h.WellShaped() && i < |h.bridges| && t < TYPE_BUS && idx <= TYPE_MEM32 && Lost(h, idx, a)
    ensures Lost(AllocNode(h, lim, ret, i, t, answer).0, idx, a)
  {
    hide AllocNode, Claim, Host.Node;
    AllocNodeEffect(h, lim, ret, i, t, answer);
  }

  /** Allocating again over an allocated window, unless out of resources, loses it. */
  lemma AllocNodeLoses(h: Host, lim: Limits, ret: EfiStatus, i: nat, idx: nat, answer: Answer, a: int)
    requires h.WellShaped() && i < |h.bridges| && idx <= TYPE_MEM32 && Allocated(h, i, idx)
    requires h.Node(i, idx).length > 0 && a in h.Space(idx).owned && answer != Refuse(OutOfResources)
    requires forall j :: 0 <= j < |h.bridges| && j != i ==> a !in Claim(h.Node(j, idx))
    ensures Lost(AllocNode(h, lim, ret, i, idx, answer).0, idx, a)
  {
    hide AllocNode, Claim, Host.Node;
    AllocNodeEffect(h, lim, ret, i, idx, answer);
    LosesOwnClaim(h, lim, ret, i, idx, answer, a);
  }

  lemma LosesOwnClaim(h: Host, lim: Limits, ret: EfiStatus, i: nat, idx: nat, answer: Answer, a: int)
    requires h.WellShaped() && i < |h.bridges| && idx <= TYPE_MEM32 && Allocated(h, i, idx)
    requires h.Node(i, idx).length > 0 && a in h.Space(idx).owned && answer != Refuse(OutOfResources)
    ensures a !in Claim(AllocNode(h, lim, ret, i, idx, answer).0.Node(i, idx))
  {
    hide AllocBits;
  }

  lemma Claimant(h: Host, i: nat, idx: nat, a: int)
    requires h.WellShaped() && i < |h.bridges| && idx <= TYPE_MEM32 && a in Claim(h.Node(i, idx))
    ensures Allocated(h, i, idx) && h.Node(i, idx).length > 0
  {
  }

  lemma VisitLoses(h: Host, lim: Limits, answers: seq<Answer>, i: nat, idx: nat, a: int)
    requires h.WellShaped() && Inv(h, lim) && i < |h.bridges| && idx <= TYPE_MEM32
    requires a in Claim(h.Node(i, idx)) && AnswerAt(answers, TYPE_BUS * i + idx) != Refuse(OutOfResources)
    ensures Lost(AllocPrefix(h, lim, answers, TYPE_BUS * i + idx + 1).0, idx, a)
  {
    hide Inv, AllocNode, AllocPrefix, Lost, AnswerAt, Claim, Host.Node, Host.WellShaped;
    var k := TYPE_BUS * i + idx;
    AllocPrefixKeepsInv(h, lim, answers, k);
    var i', t' := AllocPrefixStep(h, lim, answers, k + 1);
    assert i' == i && t' == idx;
    AllocPrefixLocal(h, lim, answers, k, i, idx);
    var r := AllocPrefix(h, lim, answers, k);
    LosesWindow(r.0, lim, r.1, i, idx, AnswerAt(answers, k), a);
  }

  lemma LosesWindow(h: Host, lim: Limits, ret: EfiStatus, i: nat, idx: nat, answer: Answer, a: int)
    requires h.WellShaped() && Inv(h, lim) && i < |h.bridges| && idx <= TYPE_MEM32
    requires a in Claim(h.Node(i, idx)) && answer != Refuse(OutOfResources)
    ensures Lost(AllocNode(h, lim, ret, i, idx, answer).0, idx, a)
  {
    hide Inv, Allocated, AllocNode, Lost, Claim, Host.Node, Host.WellShaped, Host.Space, NodeOk;
    CellIsOwned(h, lim, i, idx);
    Claimant(h, i, idx, a);
    forall j | 0 <= j < |h.bridges| && j != i ensures a !in Claim(h.Node(j, idx)) {
      ClaimedOnce(h, lim, i, j, idx, a);
    }
    AllocNodeLoses(h, lim, ret, i, idx, answer, a);
  }

  lemma {:induction false} AllocPrefixLoses(h: Host, lim: Limits, answers: seq<Answer>, k: nat, i: nat, idx: nat, a: int)
    requires h.WellShaped() && Inv(h, lim) && k <= TYPE_BUS * |h.bridges|
    requires i < |h.bridges| && idx <= TYPE_MEM32 && TYPE_BUS * i + idx < k
    requires a in Claim(h.Node(i, idx)) && AnswerAt(answers, TYPE_BUS * i + idx) != Refuse(OutOfResources)
    ensures Lost(AllocPrefix(h, lim, answers, k).0, idx, a)
    decreases k
  {
    hide Inv, AllocNode, AllocPrefix, Lost, AnswerAt, Claim, Host.Node, Host.WellShaped;
    if TYPE_BUS * i + idx < k - 1 {
      AllocPrefixLoses(h, lim, answers, k - 1, i, idx, a);
      var j, t := AllocPrefixStep(h, lim, answers, k);
      var p := AllocPrefix(h, lim, answers, k - 1);
      AllocNodeKeepsLost(p.0, lim, p.1, j, t, AnswerAt(answers, k - 1), idx, a);
    } else {
      VisitLoses(h, lim, answers, i, idx, a);
    }
  }

  /** AllocateResources keeps the accounting exact precisely when every window that is already
      allocated meets EFI_OUT_OF_RESOURCES. */
  lemma AllocateIsExactIff(h: Host, lim: Limits, answers: seq<Answer>)
    requires h.WellShaped() && Inv(h, lim) && Exact(h)
    ensures Exact(AllocPrefix(h, lim, answers, TYPE_BUS * |h.bridges|).0) <==> AllocateDropsNothing(h, answers)
  {
    hide Inv, Exact, AllocPrefix, AnswerAt;
    if AllocateDropsNothing(h, answers) {
      AllocPrefixKeepsExact(h, lim, answers, TYPE_BUS * |h.bridges|);
    } else {
      var i, t :| 0 <= i < |h.bridges| && 0 <= t <= TYPE_MEM32 && Allocated(h, i, t)
                  && AnswerAt(answers, TYPE_BUS * i + t) != Refuse(OutOfResources);
      var a := h.Node(i, t).base;
      AllocatedWindow(h, lim, i, t);
      AllocPrefixLoses(h, lim, answers, TYPE_BUS * |h.bridges|, i, t, a);
      LostIsNotExact(AllocPrefix(h, lim, answers, TYPE_BUS * |h.bridges|).0, t, a);
    }
  }

  /** Whatever the GCD answers, AllocateResources keeps the accounting exact, precisely when nothing is
      allocated. */
  lemma AllocateIsAlwaysExactIff(h: Host, lim: Limits)
    requires h.WellShaped() && Inv(h, lim) && Exact(h)
    ensures (forall answers :: Exact(AllocPrefix(h, lim, answers, TYPE_BUS * |h.bridges|).0)) <==> NoneAllocated(h)
  {
    hide Inv, Exact, AllocPrefix;
    if NoneAllocated(h) {
      forall answers ensures Exact(AllocPrefix(h, lim, answers, TYPE_BUS * |h.bridges|).0) {
        assert AllocateDropsNothing(h, answers);
        AllocateIsExactIff(h, lim, answers);
      }
    } else {
      var i, t :| 0 <= i < |h.bridges| && 0 <= t < TYPE_BUS && Allocated(h, i, t);
      AllocatedWindow(h, lim, i, t);
      var answers := seq(TYPE_BUS * i + t + 1, _ => Grant(0));
      assert AnswerAt(answers, TYPE_BUS * i + t) == Grant(0);
      AllocateIsExactIff(h, lim, answers);
    }
  }

  // ----- FreeResources

  /** Freeing at one node leaves the others alone and that node not allocated. */
  lemma FreeNodeCells(h: Host, ret: EfiStatus, j: nat, t: nat, answer: Answer, i: nat, idx: nat)
    requires h.WellShaped() && j < |h.bridges| && t < TYPE_BUS && i < |h.bridges| && idx < TYPE_BUS
    ensures var n := FreeNode(h, ret, j, t, answer).0.Node(i, idx);
            if j == i && t == idx then n.status != ResAllocated else n == h.Node(i, idx)
  {
    hide Free;
  }

  /** Nodes not yet visited are as they were, and visited nodes are no longer allocated. */
  lemma {:induction false} FreePrefixLocal(h: Host, answers: seq<Answer>, k: nat, i: nat, idx: nat)
    requires h.WellShaped() && k <= TYPE_BUS * |h.bridges|
    requires i < |h.bridges| && idx < TYPE_BUS
    ensures var n := FreePrefix(h, answers, k).0.Node(i, idx);
            if k <= TYPE_BUS * i + idx then n == h.Node(i, idx) else n.status != ResAllocated
    decreases k
  {
    hide FreeNode, FreePrefix, AnswerAt, Host.Node, Host.WellShaped;
    if k == 0 {
      FreePrefixZero(h, answers);
    } else {
      FreePrefixLocal(h, answers, k - 1, i, idx);
      var j, t := FreePrefixStep(h, answers, k);
      var p := FreePrefix(h, answers, k - 1);
      FreeNodeCells(p.0, p.1, j, t, AnswerAt(answers, k - 1), i, idx);
    }
  }

  lemma FreeNodeKeepsExact(h: Host, lim: Limits, ret: EfiStatus, i: nat, idx: nat, answer: Answer)
    requires h.WellShaped() && Inv(h, lim) && Exact(h) && i < |h.bridges| && idx < TYPE_BUS
    requires Allocated(h, i, idx) ==> !Refused(answer)
    ensures Exact(FreeNode(h, ret, i, idx, answer).0)
    ensures FreeNode(h, ret, i, idx, answer).1 == ret
  {
    var n := h.Node(i, idx);
    if n.status == ResAllocated {
      AllocatedWindow(h, lim, i, idx);
      ExactColumns(h, i, idx);
      hide Inv, Exact, ColumnExact, Column;
      var s := Free(h.Space(idx), n.base, n.length, answer).0;
      ExactRelease(Column(h, idx), h.Space(idx), i, Cleared(n));
      ReplaceCellKeepsExact(h, i, idx, Cleared(n), s);
    }
  }

  lemma FreeAnswerOk(h: Host, lim: Limits, answers: seq<Answer>, i: nat, idx: nat, p: Host)
    requires Inv(h, lim) && Exact(h) && FreeDropsNothing(h, answers) && i < |h.bridges| && idx < TYPE_BUS
    requires p.WellShaped() && i < |p.bridges| && p.Node(i, idx) == h.Node(i, idx)
    ensures Allocated(p, i, idx) ==> !Refused(AnswerAt(answers, TYPE_BUS * i + idx))
  {
    hide Exact, AnswerAt, Refused;
    if Allocated(h, i, idx) {
      AllocatedWindow(h, lim, i, idx);
    }
  }

  lemma {:induction false} FreePrefixKeepsExact(h: Host, lim: Limits, answers: seq<Answer>, k: nat)
    requires h.WellShaped() && Inv(h, lim) && Exact(h) && FreeDropsNothing(h, answers) && k <= TYPE_BUS * |h.bridges|
    ensures Exact(FreePrefix(h, answers, k).0) && FreePrefix(h, answers, k).1 == Success
    decreases k
  {
    hide Inv, Exact, FreeNode, FreePrefix, FreeDropsNothing, AnswerAt, Refused, Host.Node, Host.WellShaped, Allocated;
    if k == 0 {
      FreePrefixZero(h, answers);
    } else {
      FreePrefixKeepsExact(h, lim, answers, k - 1);
      FreePrefixKeepsInv(h, lim, answers, k - 1);
      var i, idx := FreePrefixStep(h, answers, k);
      FreePrefixLocal(h, answers, k - 1, i, idx);
      var p := FreePrefix(h, answers, k - 1);
      FreeAnswerOk(h, lim, answers, i, idx, p.0);
      FreeNodeKeepsExact(p.0, lim, p.1, i, idx, AnswerAt(answers, k - 1));
    }
  }

  /** Freeing one node gives up its own claim at most, and nothing of another type's space. */
  lemma FreeNodeEffect(h: Host, ret: EfiStatus, j: nat, t: nat, answer: Answer, idx: nat, a: int)
    requires h.WellShaped() && j < |h.bridges| && t < TYPE_BUS && idx <= TYPE_MEM32 && a in h.Space(idx).owned
    requires t == idx && a in Claim(h.Node(j, t)) ==> Refused(answer)
    requires h.Node(j, t).status == ResAllocated ==> t <= TYPE_MEM32
    ensures a in FreeNode(h, ret, j, t, answer).0.Space(idx).owned
  {
  }

  /** No address is claimed twice, and only I/O and Mem32 nodes are allocated. */
  lemma ClaimedOnce(h: Host, lim: Limits, i: nat, j: nat, idx: nat, a: int)
    requires Inv(h, lim) && i < |h.bridges| && j < |h.bridges| && i != j && idx <= TYPE_MEM32
    requires a in Claim(h.Node(i, idx))
    ensures a !in Claim(h.Node(j, idx))
  {
    CellIsOwned(h, lim, i, idx);
    hide Inv, Claim;
    assert Claim(h.Node(j, idx)) !! Claim(h.Node(i, idx));
  }

  /** A node that is as it was is allocated for I/O or Mem32 only. */
  lemma NotYetFreed(h: Host, lim: Limits, p: Host, j: nat, t: nat)
    requires Inv(h, lim) && j < |h.bridges| && t < TYPE_BUS
    requires p.WellShaped() && j < |p.bridges| && p.Node(j, t) == h.Node(j, t)
    ensures p.Node(j, t).status == ResAllocated ==> t <= TYPE_MEM32
  {
    assert Quiet(h.bridges[j]);
  }

  /** A window the GCD refuses to free stays owned. */
  lemma {:induction false} FreePrefixKeepsOwned(h: Host, lim: Limits, answers: seq<Answer>, k: nat, i: nat, idx: nat, a: int)
    requires h.WellShaped() && Inv(h, lim) && k <= TYPE_BUS * |h.bridges|
    requires i < |h.bridges| && idx <= TYPE_MEM32 && a in Claim(h.Node(i, idx))
    requires Refused(AnswerAt(answers, TYPE_BUS * i + idx))
    ensures a in FreePrefix(h, answers, k).0.Space(idx).owned
    decreases k
  {
    hide Inv, NodeOk, FreeNode, AnswerAt, Refused, Claim, Host.Node, Host.WellShaped, Host.Space, FreePrefix, Allocated;
    if k == 0 {
      CellIsOwned(h, lim, i, idx);
      FreePrefixZero(h, answers);
    } else {
      FreePrefixKeepsOwned(h, lim, answers, k - 1, i, idx, a);
      var j, t := FreePrefixStep(h, answers, k);
      var p := FreePrefix(h, answers, k - 1);
      FreePrefixLocal(h, answers, k - 1, j, t);
      NotYetFreed(h, lim, p.0, j, t);
      if j != i {
        ClaimedOnce(h, lim, i, j, idx, a);
      }
      FreeNodeEffect(p.0, p.1, j, t, AnswerAt(answers, k - 1), idx, a);
    }
  }

  /** FreeResources as a whole. */
  lemma FreeLeavesNoneAllocated(h: Host, lim: Limits, answers: seq<Answer>)
    requires h.WellShaped()
    ensures var h' := Notify(h, lim, FreeResources, answers).0;
            var p := FreePrefix(h, answers, TYPE_BUS * |h.bridges|).0;
            && NoneAllocated(h') && NoneAllocated(p)
            && h'.io == p.io && h'.mem == p.mem
            && Column(h', TYPE_IO) == Column(p, TYPE_IO) && Column(h', TYPE_MEM32) == Column(p, TYPE_MEM32)
  {
    hide FreePrefix;
    var k := TYPE_BUS * |h.bridges|;
    var p := FreePrefix(h, answers, k).0;
    var h' := Notify(h, lim, FreeResources, answers).0;
    FreePrefixFrame(h, answers, k);
    forall i, idx | 0 <= i < |h.bridges| && 0 <= idx < TYPE_BUS
      ensures !Allocated(p, i, idx) && h'.Node(i, idx) == p.Node(i, idx)
    {
      FreePrefixLocal(h, answers, k, i, idx);
    }
    assert Column(h', TYPE_IO) == Column(p, TYPE_IO) && Column(h', TYPE_MEM32) == Column(p, TYPE_MEM32);
  }

  /** FreeResources in an exact state, if no window's free is refused, succeeds and leaves the driver
      owning nothing. */
  lemma FreeResourcesReturnsEverything(h: Host, lim: Limits, answers: seq<Answer>)
    requires h.WellShaped() && Inv(h, lim) && Exact(h) && FreeDropsNothing(h, answers)
    ensures var (h', st) := Notify(h, lim, FreeResources, answers);
            && st == Success
            && NoneAllocated(h') && Exact(h')
            && h'.io == h.io.(owned := {}) && h'.mem == h.mem.(owned := {})
  {
    hide Inv, FreePrefix, ColumnExact, FreeDropsNothing, NoneAllocated, Column;
    var k := TYPE_BUS * |h.bridges|;
    FreePrefixKeepsExact(h, lim, answers, k);
    FreePrefixFrame(h, answers, k);
    FreeLeavesNoneAllocated(h, lim, answers);
    NoneAllocatedOwnsNothing(FreePrefix(h, answers, k).0);
  }

  /** FreeResources keeps the accounting exact precisely when the GCD refuses to free no window. */
  lemma FreeIsExactIff(h: Host, lim: Limits, answers: seq<Answer>)
    requires h.WellShaped() && Inv(h, lim) && Exact(h)
    ensures Exact(Notify(h, lim, FreeResources, answers).0) <==> FreeDropsNothing(h, answers)
  {
    hide Inv, Exact, Notify, AnswerAt, Refused, FreePrefix;
    if FreeDropsNothing(h, answers) {
      FreeResourcesReturnsEverything(h, lim, answers);
    } else {
      var i, t :| 0 <= i < |h.bridges| && 0 <= t <= TYPE_MEM32 && Allocated(h, i, t)
                  && Refused(AnswerAt(answers, TYPE_BUS * i + t));
      var h' := Notify(h, lim, FreeResources, answers).0;
      AllocatedWindow(h, lim, i, t);
      FreePrefixKeepsOwned(h, lim, answers, TYPE_BUS * |h.bridges|, i, t, h.Node(i, t).base);
      FreeLeavesNoneAllocated(h, lim, answers);
      if Exact(h') {
        NoneAllocatedOwnsNothing(h');
      }
    }
  }

  // ----- restarting

  lemma BeginEnumerationClears(h: Host)
    requires h.WellShaped()
    ensures NoneAllocated(BeginEnumerationSpec(h))
  {
    var h' := BeginEnumerationSpec(h);
    forall i, idx | 0 <= i < |h.bridges| && 0 <= idx < TYPE_BUS
      ensures !Allocated(h', i, idx)
    {
      assert h'.Node(i, idx) == Cleared(h.Node(i, idx));
    }
  }

  /** Restarting the enumeration forgets windows without freeing them: it keeps the accounting
      exact precisely when no node is allocated. */
  lemma RestartIsExactIff(h: Host, lim: Limits)
    requires h.WellShaped() && Inv(h, lim) && Exact(h)
    ensures Exact(BeginEnumerationSpec(h)) <==> NoneAllocated(h)
  {
    hide Inv, Exact, Column;
    var h' := BeginEnumerationSpec(h);
    BeginEnumerationClears(h);
    if NoneAllocated(h) {
      NoneAllocatedOwnsNothing(h);
      IdleIsExact(h');
    } else {
      var i, idx :| 0 <= i < |h.bridges| && 0 <= idx < TYPE_BUS && Allocated(h, i, idx);
      AllocatedWindow(h, lim, i, idx);
      if Exact(h') {
        NoneAllocatedOwnsNothing(h');
      }
    }
  }
}
