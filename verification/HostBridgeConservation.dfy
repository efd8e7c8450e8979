/** Accounting over submissions and whole runs: for as long as no call forgets a window the space the driver
    owns is exactly the union of its windows, and FreeResources hands everything back. */
module HostBridgeConservation {
  import opened Words
  import opened Efi
  import opened Gcd
  import opened AcpiDescriptor
  import opened HostBridgeModel
  import opened HostBridgeSafety
  import opened HostBridgeDiscipline
  import opened HostBridgeAccounting

  // ----- submitting

  lemma SubmitOneNode(p: Submission, attrib: nat, d: Descriptor, t: nat)
    requires |p.nodes| == TYPE_MAX && t <= TYPE_MEM32
    ensures var r := SubmitOne(p, attrib, d);
            if p.ok && RequestedType(attrib, d) == Some(t) then r.nodes[t].status == ResRequested
            else r.nodes[t] == p.nodes[t]
  {
    hide GetPowerOfTwo64;
  }

  /** A window type that is asked for ends up requested; one that is not keeps its node. */
  lemma {:induction false} SubmitPrefixNodes(p: Submission, attrib: nat, s: seq<u8>, n: nat, t: nat)
    requires |p.nodes| == TYPE_MAX && RECORD_SIZE * n <= |s| && t <= TYPE_MEM32 && p.ok
    ensures var r := SubmitPrefix(p, attrib, s, n);
            if Requests(p, attrib, s, n, t) then r.nodes[t].status == ResRequested else r.nodes[t] == p.nodes[t]
    decreases n
  {
    hide Decode, GetPowerOfTwo64, SubmitOne, RequestedType;
    if n > 0 {
      SubmitPrefixNodes(p, attrib, s, n - 1, t);
      SubmitOneNode(SubmitPrefix(p, attrib, s, n - 1), attrib, Decode(s, RECORD_SIZE * (n - 1)), t);
    }
  }

  lemma SubmitReachesMeans(h: Host, handle: int, config: Option<seq<u8>>)
    requires SubmitReaches(h, handle, config)
    ensures config.Some? && Scannable(config.value, 0) && FindBridge(h.bridges, handle) < |h.bridges|
  {
  }

  /** The effect of a submission that gets past its scan, on one bridge. */
  lemma SubmitCells(h: Host, lim: Limits, handle: int, config: Option<seq<u8>>)
    requires Inv(h, lim) && SubmitReaches(h, handle, config)
    ensures var h', i := Submit(h, handle, config).0, FindBridge(h.bridges, handle);
            && |h'.bridges| == |h.bridges| && h'.io == h.io && h'.mem == h.mem
            && (forall j, idx :: 0 <= j < |h.bridges| && 0 <= idx < TYPE_MAX && j != i ==> h'.Node(j, idx) == h.Node(j, idx))
            && forall idx :: 0 <= idx <= TYPE_MEM32 ==>
                 if RequestsOf(h, handle, config, idx)
                 then h'.Node(i, idx).status == ResRequested else h'.Node(i, idx) == h.Node(i, idx)
  {
    var s, i := config.value, FindBridge(h.bridges, handle);
    assert h.WellShaped() && |h.bridges[i].nodes| == TYPE_MAX;
    hide Inv, SubmitPrefix, Requests, RecordCount, FindBridge;
    RecordsAreWhole(s, 0);
    var p := Submission(true, h.bridges[i].nodes, h.submitted);
    forall idx | 0 <= idx <= TYPE_MEM32
      ensures var r := SubmitPrefix(p, h.bridges[i].attrib, s, RecordCount(s, 0));
              if Requests(p, h.bridges[i].attrib, s, RecordCount(s, 0), idx)
              then r.nodes[idx].status == ResRequested else r.nodes[idx] == p.nodes[idx]
    {
      SubmitPrefixNodes(p, h.bridges[i].attrib, s, RecordCount(s, 0), idx);
    }
  }

  /** Two states with the same spaces, whose nodes of one column differ only where neither claims. */
  lemma SameClaimsSameExactness(col: seq<ResNode>, col': seq<ResNode>, sp: GcdSpace)
    requires |col| == |col'| && ColumnExact(col, sp)
    requires forall j :: 0 <= j < |col| ==>
               col'[j] == col[j] || (col[j].status != ResAllocated && col'[j].status != ResAllocated)
    ensures ColumnExact(col', sp)
  {
    forall a | a in sp.owned ensures exists j :: 0 <= j < |col'| && a in Claim(col'[j]) {
      var j :| 0 <= j < |col| && a in Claim(col[j]);
      assert col'[j] == col[j];
    }
  }

  /** The other half: what is requested over an allocated window is lost. */
  lemma SubmitLoses(h: Host, lim: Limits, handle: int, config: Option<seq<u8>>, t: nat)
    requires h.WellShaped() && Inv(h, lim) && Exact(h) && t <= TYPE_MEM32
    requires SubmitReaches(h, handle, config) && Allocated(h, FindBridge(h.bridges, handle), t)
    requires RequestsOf(h, handle, config, t)
    ensures !Exact(Submit(h, handle, config).0)
  {
    hide Inv, Exact, Submit, RequestsOf, Claim, Host.Node, Host.WellShaped, FindBridge;
    var h', i := Submit(h, handle, config).0, FindBridge(h.bridges, handle);
    SubmitCells(h, lim, handle, config);
    AllocatedWindow(h, lim, i, t);
    RequestedClaimsNothing(h'.Node(i, t));
    var a := h.Node(i, t).base;
    assert forall j :: 0 <= j < |h.bridges| && j != i ==> a !in Claim(h.Node(j, t));
    assert Lost(h', t, a);
    LostIsNotExact(h', t, a);
  }

  lemma RequestedClaimsNothing(n: ResNode)
    requires n.status == ResRequested
    ensures Claim(n) == {}
  {
  }

  /** A column whose nodes differ only where neither is allocated stays exact. */
  lemma SameCellsSameExactness(h: Host, h': Host, idx: nat)
    requires h.WellShaped() && h'.WellShaped() && |h'.bridges| == |h.bridges| && idx <= TYPE_MEM32
    requires ColumnExact(Column(h, idx), h.Space(idx)) && h'.Space(idx) == h.Space(idx)
    requires forall j :: 0 <= j < |h.bridges| ==>
               h'.Node(j, idx) == h.Node(j, idx) || (!Allocated(h, j, idx) && !Allocated(h', j, idx))
    ensures ColumnExact(Column(h', idx), h'.Space(idx))
  {
    hide Column, ColumnExact;
    ColumnCells(h, idx);
    ColumnCells(h', idx);
    SameClaimsSameExactness(Column(h, idx), Column(h', idx), h.Space(idx));
  }

  lemma SameCellsKeepExact(h: Host, h': Host)
    requires h.WellShaped() && h'.WellShaped() && |h'.bridges| == |h.bridges| && h'.io == h.io && h'.mem == h.mem
    requires Exact(h)
    requires forall j, idx :: 0 <= j < |h.bridges| && 0 <= idx <= TYPE_MEM32 ==>
               h'.Node(j, idx) == h.Node(j, idx) || (!Allocated(h, j, idx) && !Allocated(h', j, idx))
    ensures Exact(h')
  {
    hide Column, ColumnExact;
    SameCellsSameExactness(h, h', TYPE_IO);
    SameCellsSameExactness(h, h', TYPE_MEM32);
  }

  lemma SubmitKeepsExact(h: Host, lim: Limits, handle: int, config: Option<seq<u8>>)
    requires h.WellShaped() && Inv(h, lim) && Exact(h) && SubmitReaches(h, handle, config)
    requires forall t :: 0 <= t <= TYPE_MEM32 && Allocated(h, FindBridge(h.bridges, handle), t) ==>
               !RequestsOf(h, handle, config, t)
    ensures Exact(Submit(h, handle, config).0)
  {
    SubmitReachesMeans(h, handle, config);
    hide Inv, Exact, Submit, RequestsOf, SubmitReaches, FindBridge, Host.WellShaped, Host.Node, Scannable;
    var h', i := Submit(h, handle, config).0, FindBridge(h.bridges, handle);
    SubmitCells(h, lim, handle, config);
    forall j, idx | 0 <= j < |h.bridges| && 0 <= idx <= TYPE_MEM32
      ensures h'.Node(j, idx) == h.Node(j, idx) || (!Allocated(h, j, idx) && !Allocated(h', j, idx))
    {
    }
    SameCellsKeepExact(h, h');
  }

  lemma ColumnCells(h: Host, idx: nat)
    requires h.WellShaped() && idx < TYPE_MAX
    ensures |Column(h, idx)| == |h.bridges|
    ensures forall j :: 0 <= j < |h.bridges| ==> Column(h, idx)[j] == h.Node(j, idx)
  {
  }

  /** A submission keeps the accounting exact precisely when no record it accepts asks for a window
      that is allocated. */
  lemma SubmitIsExactIff(h: Host, lim: Limits, handle: int, config: Option<seq<u8>>)
    requires h.WellShaped() && Inv(h, lim) && Exact(h)
    requires config.Some? ==> Scannable(config.value, 0)
    ensures Exact(Submit(h, handle, config).0) <==> SubmitDropsNothing(h, handle, config)
  {
    hide Inv, Exact, Submit, RequestsOf, SubmitReaches, FindBridge, Scannable, Host.WellShaped, Allocated;
    if SubmitReaches(h, handle, config) {
      SubmitReachesMeans(h, handle, config);
      if SubmitDropsNothing(h, handle, config) {
        SubmitKeepsExact(h, lim, handle, config);
      } else {
        var t :| 0 <= t <= TYPE_MEM32 && Allocated(h, FindBridge(h.bridges, handle), t) && RequestsOf(h, handle, config, t);
        SubmitLoses(h, lim, handle, config, t);
      }
    } else {
      RefusedSubmission(h, handle, config);
    }
  }

  lemma RefusedSubmission(h: Host, handle: int, config: Option<seq<u8>>)
    requires h.WellShaped() && !SubmitReaches(h, handle, config)
    requires config.Some? ==> Scannable(config.value, 0)
    ensures Submit(h, handle, config).0 == h
  {
    hide FindBridge, Scannable, RecordCount, SubmitPrefix;
    if config.Some? {
      RecordsAreWhole(config.value, 0);
    }
  }

  // ----- runs

  /** From an exact state a call leads to an exact state if and only if it drops no window. */
  lemma StepIsExactIff(h: Host, lim: Limits, e: Event)
    requires h.WellShaped() && Inv(h, lim) && Exact(h) && e.Callable()
    ensures Exact(Step(h, lim, e).0) <==> DropsNothing(h, e)
  {
    hide Inv, AllocPrefix, FreePrefix, Submit, ColumnExact, SubmitDropsNothing, AllocateDropsNothing, FreeDropsNothing;
    match e
    case SubmitEvent(handle, config) => SubmitIsExactIff(h, lim, handle, config);
    case NotifyEvent(phase, answers) =>
      match phase
      case BeginEnumeration => RestartIsExactIff(h, lim);
      case AllocateResources => AllocateIsExactIff(h, lim, answers);
      case FreeResources => FreeIsExactIff(h, lim, answers);
      case _ =>
        var h' := Step(h, lim, e).0;
        assert Column(h', TYPE_IO) == Column(h, TYPE_IO) && Column(h', TYPE_MEM32) == Column(h, TYPE_MEM32);
  }

  ghost predicate AlwaysExact(h: Host, lim: Limits, es: seq<Event>)
    requires h.WellShaped() && forall e :: e in es ==> e.Callable()
  {
    forall k :: 0 <= k <= |es| ==> Exact(Run(h, lim, es[..k]))
  }

  lemma RunPrefix(h: Host, lim: Limits, es: seq<Event>, k: nat)
    requires h.WellShaped() && (forall e :: e in es ==> e.Callable()) && k < |es|
    ensures Run(h, lim, es[..k + 1]) == Step(Run(h, lim, es[..k]), lim, es[k]).0
  {
    assert es[..k + 1][..k] == es[..k];
  }

  lemma {:induction false} ExactUpTo(h: Host, lim: Limits, es: seq<Event>, n: nat)
    requires Initial(h) && DisciplinedRun(h, lim, es) && n <= |es|
    ensures Exact(Run(h, lim, es[..n]))
    decreases n
  {
    InitialShape(h);
    hide Inv, Exact, Initial, DropsNothing, Step;
    if n == 0 {
      InitialIsExact(h);
    } else {
      ExactUpTo(h, lim, es, n - 1);
      ReachableInv(h, lim, es[..n - 1]);
      RunPrefix(h, lim, es, n - 1);
      StepIsExactIff(Run(h, lim, es[..n - 1]), lim, es[n - 1]);
    }
  }

  lemma InitialIsExact(h: Host)
    requires Initial(h)
    ensures Exact(h)
  {
    IdleIsExact(h);
  }

  /** The accounting is exact in every state of a run if and only if no call of the run drops a
      window. */
  lemma RunIsExactIff(h: Host, lim: Limits, es: seq<Event>)
    requires Initial(h) && forall e :: e in es ==> e.Callable()
    ensures AlwaysExact(h, lim, es) <==> DisciplinedRun(h, lim, es)
  {
    assert h.WellShaped();
    hide Inv, Exact, DropsNothing, Step, Run;
    if DisciplinedRun(h, lim, es) {
      forall k | 0 <= k <= |es| ensures Exact(Run(h, lim, es[..k])) {
        ExactUpTo(h, lim, es, k);
      }
    }
    if AlwaysExact(h, lim, es) {
      forall k | 0 <= k < |es| ensures DropsNothing(Run(h, lim, es[..k]), es[k]) {
        assert Exact(Run(h, lim, es[..k])) && Exact(Run(h, lim, es[..k + 1]));
        ReachableInv(h, lim, es[..k]);
        RunPrefix(h, lim, es, k);
        StepIsExactIff(Run(h, lim, es[..k]), lim, es[k]);
      }
    }
  }

  // ----- the promises

  predicate Window(n: ResNode, a: int) {
    n.status == ResAllocated && n.base <= a < n.base + n.length
  }

  lemma ColumnOwnership(col: seq<ResNode>, sp: GcdSpace, limit: int, idx: nat, a: int)
    requires ColumnInv(col, sp, limit, idx) && ColumnExact(col, sp)
    ensures a in sp.owned <==> exists i :: 0 <= i < |col| && Window(col[i], a)
  {
    forall i | 0 <= i < |col|
      ensures a in Claim(col[i]) <==> Window(col[i], a)
    {
    }
    if i :| 0 <= i < |col| && Window(col[i], a) {
      assert Claim(col[i]) <= sp.owned;
    }
  }

  /** An address is owned exactly when some root bridge's allocated window contains it. */
  ghost predicate OwnedAreWindows(h: Host, idx: nat)
    requires h.WellShaped() && idx <= TYPE_MEM32
  {
    forall a :: a in h.Space(idx).owned <==> exists i :: 0 <= i < |h.bridges| && Window(h.Node(i, idx), a)
  }

  lemma StateOwnership(h: Host, limit: int, idx: nat)
    requires h.WellShaped() && idx <= TYPE_MEM32
    requires ColumnInv(Column(h, idx), h.Space(idx), limit, idx) && ColumnExact(Column(h, idx), h.Space(idx))
    ensures OwnedAreWindows(h, idx)
  {
    hide ColumnInv, ColumnExact, Window, Column;
    forall a
      ensures a in h.Space(idx).owned <==> exists i :: 0 <= i < |h.bridges| && Window(h.Node(i, idx), a)
    {
      ColumnSize(h, idx);
      ColumnOwnership(Column(h, idx), h.Space(idx), limit, idx, a);
      ColumnWindows(h, idx, a);
    }
  }

  lemma ColumnSize(h: Host, idx: nat)
    requires h.WellShaped() && idx < TYPE_MAX
    ensures |Column(h, idx)| == |h.bridges|
  {
  }

  lemma ColumnWindows(h: Host, idx: nat, a: int)
    requires h.WellShaped() && idx <= TYPE_MEM32
    ensures |Column(h, idx)| == |h.bridges|
    ensures (exists i :: 0 <= i < |h.bridges| && Window(Column(h, idx)[i], a))
       <==> (exists i :: 0 <= i < |h.bridges| && Window(h.Node(i, idx), a))
  {
    if i :| 0 <= i < |h.bridges| && Window(Column(h, idx)[i], a) {
      assert Window(h.Node(i, idx), a);
    }
    if i :| 0 <= i < |h.bridges| && Window(h.Node(i, idx), a) {
      assert Window(Column(h, idx)[i], a);
    }
  }

  /** In every disciplined run the driver owns exactly its allocated windows. */
  lemma OwnedIsExactlyTheWindows(h: Host, lim: Limits, es: seq<Event>)
    requires Initial(h) && DisciplinedRun(h, lim, es)
    ensures OwnedAreWindows(Run(h, lim, es), TYPE_IO)
    ensures OwnedAreWindows(Run(h, lim, es), TYPE_MEM32)
  {
    ReachableInv(h, lim, es);
    ExactUpTo(h, lim, es, |es|);
    assert es[..|es|] == es;
    hide Initial, DisciplinedRun, Run, ColumnInv, ColumnExact, OwnedAreWindows;
    var h' := Run(h, lim, es);
    StateOwnership(h', lim.io, TYPE_IO);
    StateOwnership(h', lim.mem, TYPE_MEM32);
  }

  /** FreeResources after any disciplined run, if no window's free is refused, puts both GCD spaces
      back as they were at start. */
  lemma FreeRestoresInitialGcd(h: Host, lim: Limits, es: seq<Event>, answers: seq<Answer>)
    requires Initial(h) && DisciplinedRun(h, lim, es)
    requires FreeDropsNothing(Run(h, lim, es), answers)
    ensures var (h', st) := Notify(Run(h, lim, es), lim, FreeResources, answers);
            st == Success && h'.io == h.io && h'.mem == h.mem
  {
    ReachableInv(h, lim, es);
    ExactUpTo(h, lim, es, |es|);
    assert es[..|es|] == es;
    hide DisciplinedRun, Run, Exact, Inv, FreeDropsNothing, Notify;
    FreeResourcesReturnsEverything(Run(h, lim, es), lim, answers);
  }
}
