/** The discipline a caller of the host bridge protocol can see: if it frees after each AllocateResources
    before submitting, allocating or enumerating anew, no call forgets a window. */
module HostBridgeCallOrder {
  import opened Words
  import opened Efi
  import opened Gcd
  import opened AcpiDescriptor
  import opened HostBridgeModel
  import opened HostBridgeSafety
  import opened HostBridgeDiscipline
  import opened HostBridgeAccounting
  import opened HostBridgeConservation

  predicate Allocates(e: Event) {
    e.NotifyEvent? && e.phase.AllocateResources?
  }

  predicate Frees(e: Event) {
    e.NotifyEvent? && e.phase.FreeResources?
  }

  /** The calls that may overwrite a window's node. */
  predicate Overwrites(e: Event) {
    e.SubmitEvent? || e.phase.BeginEnumeration? || e.phase.AllocateResources?
  }

  /** Between an AllocateResources and a later call that may overwrite its windows lies a FreeResources. */
  predicate FreedBetween(es: seq<Event>, j: nat, k: nat)
    requires j < k < |es|
  {
    Allocates(es[j]) && Overwrites(es[k]) ==> exists f :: j < f < k && Frees(es[f])
  }

  predicate Orderly(es: seq<Event>) {
    forall j, k :: 0 <= j < k < |es| ==> FreedBetween(es, j, k)
  }

  /** No FreeResources of the run is refused the free of a window. */
  predicate FreesSucceed(h: Host, lim: Limits, es: seq<Event>)
    requires h.WellShaped() && forall e :: e in es ==> e.Callable()
  {
    forall k :: 0 <= k < |es| && Frees(es[k]) ==> FreeDropsNothing(Run(h, lim, es[..k]), es[k].answers)
  }

  /** An AllocateResources among the first n calls is not yet followed by a FreeResources. */
  predicate Pending(es: seq<Event>, n: nat)
    requires n <= |es|
  {
    exists j :: 0 <= j < n && Allocates(es[j]) && forall f :: j < f < n ==> !Frees(es[f])
  }

  lemma PendingGrows(es: seq<Event>, n: nat)
    requires n < |es| && !Frees(es[n])
    ensures Pending(es, n) || Allocates(es[n]) ==> Pending(es, n + 1)
  {
    if j :| 0 <= j < n && Allocates(es[j]) && forall f :: j < f < n ==> !Frees(es[f]) {
      assert forall f :: j < f < n + 1 ==> !Frees(es[f]);
    }
  }

  lemma PendingForbids(es: seq<Event>, n: nat)
    requires n < |es| && Orderly(es) && Pending(es, n)
    ensures !Overwrites(es[n])
  {
    var j :| 0 <= j < n && Allocates(es[j]) && forall f :: j < f < n ==> !Frees(es[f]);
    assert FreedBetween(es, j, n);
  }

  // ----- calls that leave nothing allocated

  lemma {:induction false} SubmitGrantsNothing(p: Submission, attrib: nat, s: seq<u8>, n: nat, t: nat)
    requires |p.nodes| == TYPE_MAX && RECORD_SIZE * n <= |s| && t < TYPE_MAX && p.nodes[t].status != ResAllocated
    ensures SubmitPrefix(p, attrib, s, n).nodes[t].status != ResAllocated
    decreases n
  {
    hide Decode, GetPowerOfTwo64;
    if n > 0 {
      SubmitGrantsNothing(p, attrib, s, n - 1, t);
    }
  }

  lemma SubmitKeepsNone(h: Host, handle: int, config: Option<seq<u8>>)
    requires h.WellShaped() && NoneAllocated(h) && (config.Some? ==> Scannable(config.value, 0))
    ensures NoneAllocated(Submit(h, handle, config).0)
  {
    hide SubmitPrefix, RecordCount, FindBridge, Scannable;
    var h' := Submit(h, handle, config).0;
    if h' != h {
      var s, i := config.value, FindBridge(h.bridges, handle);
      RecordsAreWhole(s, 0);
      var b := h.bridges[i];
      forall j, t | 0 <= j < |h'.bridges| && 0 <= t < TYPE_BUS ensures !Allocated(h', j, t) {
        assert !Allocated(h, j, t);
        if j == i {
          SubmitGrantsNothing(Submission(true, b.nodes, h.submitted), b.attrib, s, RecordCount(s, 0), t);
        }
      }
    }
  }

  lemma SameNodesKeepNone(h: Host, h': Host)
    requires h.WellShaped() && NoneAllocated(h) && h'.bridges == h.bridges
    ensures NoneAllocated(h')
  {
    forall i, t | 0 <= i < |h'.bridges| && 0 <= t < TYPE_BUS ensures !Allocated(h', i, t) {
      assert !Allocated(h, i, t);
    }
  }

  /** Only AllocateResources makes windows, and FreeResources leaves none. */
  lemma StepKeepsNone(h: Host, lim: Limits, e: Event)
    requires h.WellShaped() && e.Callable() && !Allocates(e) && (Frees(e) || NoneAllocated(h))
    ensures NoneAllocated(Step(h, lim, e).0)
  {
    hide AllocPrefix, FreePrefix, Submit, NoneAllocated;
    if e.SubmitEvent? {
      SubmitKeepsNone(h, e.handle, e.config);
    } else if Frees(e) {
      FreeLeavesNoneAllocated(h, lim, e.answers);
    } else if e.phase.BeginEnumeration? && h.canRestart {
      BeginEnumerationClears(h);
    } else {
      SameNodesKeepNone(h, Step(h, lim, e).0);
    }
  }

  lemma {:induction false} NothingPending(h: Host, lim: Limits, es: seq<Event>, n: nat)
    requires h.WellShaped() && NoneAllocated(h) && (forall e :: e in es ==> e.Callable())
    requires n <= |es| && !Pending(es, n)
    ensures NoneAllocated(Run(h, lim, es[..n]))
    decreases n
  {
    hide NoneAllocated, Step, Pending, Run;
    if n == 0 {
      EmptyRun(h, lim, es);
    } else {
      RunPrefix(h, lim, es, n - 1);
      NotPendingNow(es, n);
      if !Frees(es[n - 1]) {
        PendingGrows(es, n - 1);
        NothingPending(h, lim, es, n - 1);
      }
      StepKeepsNone(Run(h, lim, es[..n - 1]), lim, es[n - 1]);
    }
  }

  lemma NotPendingNow(es: seq<Event>, n: nat)
    requires 0 < n <= |es| && !Pending(es, n)
    ensures !Allocates(es[n - 1])
  {
  }

  lemma EmptyRun(h: Host, lim: Limits, es: seq<Event>)
    requires h.WellShaped()
    ensures Run(h, lim, es[..0]) == h
  {
  }

  /** Where nothing is allocated a call that may overwrite windows drops none. */
  lemma NothingToDrop(h: Host, e: Event)
    requires h.WellShaped() && e.Callable() && !Frees(e) && (Overwrites(e) ==> NoneAllocated(h))
    ensures DropsNothing(h, e)
  {
    hide SubmitReaches, RequestsOf, AnswerAt, FindBridge, Allocated, Scannable;
    if e.SubmitEvent? && SubmitReaches(h, e.handle, e.config) {
      SubmitReachesMeans(h, e.handle, e.config);
    }
  }

  /** An orderly sequence of calls, none of whose frees is refused, drops no window. */
  lemma OrderlyIsDisciplined(h: Host, lim: Limits, es: seq<Event>)
    requires Initial(h) && (forall e :: e in es ==> e.Callable())
    requires Orderly(es) && FreesSucceed(h, lim, es)
    ensures DisciplinedRun(h, lim, es)
  {
    hide Run, Orderly, Pending, DropsNothing, NoneAllocated, FreeDropsNothing;
    InitialShape(h);
    InitialHasNone(h);
    forall k | 0 <= k < |es| ensures DropsNothing(Run(h, lim, es[..k]), es[k]) {
      if Frees(es[k]) {
        FreesDropNothing(Run(h, lim, es[..k]), es[k]);
      } else {
        if Overwrites(es[k]) {
          if Pending(es, k) {
            PendingForbids(es, k);
          }
          NothingPending(h, lim, es, k);
        }
        NothingToDrop(Run(h, lim, es[..k]), es[k]);
      }
    }
  }

  lemma InitialHasNone(h: Host)
    requires Initial(h)
    ensures h.WellShaped() && NoneAllocated(h)
  {
  }

  lemma FreesDropNothing(h: Host, e: Event)
    requires h.WellShaped() && Frees(e) && FreeDropsNothing(h, e.answers)
    ensures DropsNothing(h, e)
  {
  }

  /** A closing FreeResources then puts both GCD spaces back as they were at start. */
  lemma OrderlyReturnsEverything(h: Host, lim: Limits, es: seq<Event>, answers: seq<Answer>)
    requires Initial(h) && (forall e :: e in es ==> e.Callable())
    requires Orderly(es) && FreesSucceed(h, lim, es) && FreeDropsNothing(Run(h, lim, es), answers)
    ensures var (h', st) := Notify(Run(h, lim, es), lim, FreeResources, answers);
            st == Success && h'.io == h.io && h'.mem == h.mem
  {
    hide Run, Orderly, FreesSucceed, FreeDropsNothing, DisciplinedRun, Notify;
    OrderlyIsDisciplined(h, lim, es);
    FreeRestoresInitialGcd(h, lim, es, answers);
  }
}
