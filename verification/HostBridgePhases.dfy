/** What the phases of the protocol do and answer: one node's allocation, the status of AllocateResources and
    FreeResources, and over whole runs when an enumeration may restart and resources may be allocated. */
module HostBridgePhases {
  import opened Words
  import opened Efi
  import opened Gcd
  import opened AcpiDescriptor
  import opened HostBridgeModel
  import opened HostBridgeSafety
  import opened HostBridgeDiscipline
  import opened HostBridgeAccounting
  import opened HostBridgeConservation
  import opened HostBridgeCallOrder
  import opened HostBridgeRequests

  // ----- AllocateResources at one node

  /** A grant for n from this space: whole, free, at or below the limit, and on a boundary of the alignment
      as far as it is honoured (below 2^15 for I/O, always for memory up to 2^31). */
  predicate Fulfils(s: GcdSpace, limit: int, t: nat, n: ResNode, base: nat) {
    && n.length > 0 && base + n.length - 1 <= limit && Span(base, n.length) <= s.pool - s.owned
    && (t == 1 || n.alignment <= 0x7FFF ==> base % (n.alignment + 1) == 0)
  }

  /** The GCD's answer at this node is one its contract permits. */
  predicate Granted(h: Host, lim: Limits, i: nat, t: nat, answer: Answer)
    requires h.WellShaped() && i < |h.bridges| && t <= 1
  {
    var n := h.Node(i, t);
    && answer.Grant? && n.length > 0 && AllocBits(t, n.alignment) < 64
    && Grantable(h.Space(t), AllocBits(t, n.alignment), n.length, Limit(lim, t), answer.base)
  }

  lemma AlignedGrant(t: nat, n: ResNode, base: nat)
    requires t <= 1 && NodeOk(n)
    ensures AllocBits(t, n.alignment) < 64
    ensures base % Pow2(AllocBits(t, n.alignment)) == 0 <==> (t == 1 || n.alignment <= 0x7FFF ==> base % (n.alignment + 1) == 0)
  {
    Pow2Values();
    var bits := HighBitSet64(n.alignment) + 1;
    PowersApart(15, bits);
    assert Pow2(0) == 1;
  }

  /** The visit of an I/O or memory node that is not idle.  If the GCD grants what fulfils the request, the node
      has the base granted, and its space (I/O space for node 0, memory space for node 1) owns the window as
      well.  Otherwise the phase returns an error, and node and space keep what they have, but for the length,
      which becomes zero unless resources ran out.  The other space is not touched. */
  lemma NodeVisited(h: Host, lim: Limits, ret: EfiStatus, i: nat, t: nat, answer: Answer)
    requires h.WellShaped() && i < |h.bridges| && t <= 1 && h.Node(i, t).status != ResNone && NodeOk(h.Node(i, t))
    ensures var (h', ret') := AllocNode(h, lim, ret, i, t, answer);
            var n, n' := h.Node(i, t), h'.Node(i, t);
            var s, s' := if t == 0 then h.io else h.mem, if t == 0 then h'.io else h'.mem;
            && (if t == 0 then h'.mem == h.mem else h'.io == h.io)
            && h'.submitted == h.submitted && h'.canRestart == h.canRestart
            && if answer.Grant? && Fulfils(s, if t == 0 then lim.io else lim.mem, t, n, answer.base) then
                 && ret' == ret && s' == s.(owned := s.owned + Span(answer.base, n.length))
                 && n' == ResNode(answer.base, n.length, n.alignment, ResAllocated)
               else
                 && ret'.IsError() && s' == s
                 && n' == n.(length := if ret' == OutOfResources then n.length else 0)
  {
    GrantedIff(h, lim, i, t, answer);
    AllocateIff(h, lim, i, t, answer);
    hide AllocBits, NodeOk, Grantable, Granted, Fulfils, Allocate, Limit;
  }

  lemma GrantedIff(h: Host, lim: Limits, i: nat, t: nat, answer: Answer)
    requires h.WellShaped() && i < |h.bridges| && t <= 1 && NodeOk(h.Node(i, t))
    ensures Granted(h, lim, i, t, answer) <==>
              answer.Grant? && Fulfils(if t == 0 then h.io else h.mem, if t == 0 then lim.io else lim.mem, t, h.Node(i, t), answer.base)
  {
    if answer.Grant? {
      AlignedGrant(t, h.Node(i, t), answer.base);
    }
    hide AllocBits, NodeOk;
  }

  /** The GCD service grants what is permitted, and only that. */
  lemma AllocateIff(h: Host, lim: Limits, i: nat, t: nat, answer: Answer)
    requires h.WellShaped() && i < |h.bridges| && t <= 1
    ensures var n, s := h.Node(i, t), h.Space(t);
            var r := Allocate(s, AllocBits(t, n.alignment), n.length, Limit(lim, t), answer);
            if Granted(h, lim, i, t, answer) then r == (s.(owned := s.owned + Span(answer.base, n.length)), Success, answer.base)
            else r.1.IsError() && r.0 == s
  {
    hide AllocBits, Grantable;
  }

  // ----- the status of AllocateResources

  /** The visit of this node fails: it is not idle, and no memory window of the two types the driver knows,
      or the GCD does not grant it. */
  predicate Fails(h: Host, lim: Limits, i: nat, t: nat, answer: Answer)
    requires h.WellShaped() && i < |h.bridges| && t < TYPE_BUS
  {
    h.Node(i, t).status != ResNone && (t > 1 || !Granted(h, lim, i, t, answer))
  }

  lemma VisitStatus(h: Host, lim: Limits, ret: EfiStatus, i: nat, t: nat, answer: Answer)
    requires h.WellShaped() && i < |h.bridges| && t < TYPE_BUS
    ensures var ret' := AllocNode(h, lim, ret, i, t, answer).1;
            if Fails(h, lim, i, t, answer) then ret'.IsError() else ret' == ret
  {
    hide AllocBits, Grantable;
  }

  /** Visit k of the phase fails. */
  predicate FailsAt(h: Host, lim: Limits, answers: seq<Answer>, k: nat)
    requires h.WellShaped() && k < TYPE_BUS * |h.bridges|
  {
    Fails(AllocPrefix(h, lim, answers, k).0, lim, k / TYPE_BUS, k % TYPE_BUS, AnswerAt(answers, k))
  }

  lemma {:induction false} PrefixStatus(h: Host, lim: Limits, answers: seq<Answer>, k: nat)
    requires h.WellShaped() && k <= TYPE_BUS * |h.bridges|
    ensures AllocPrefix(h, lim, answers, k).1 == Success <==> forall j :: 0 <= j < k ==> !FailsAt(h, lim, answers, j)
    decreases k
  {
    hide AllocNode, AllocPrefix, AnswerAt, Fails, Host.WellShaped;
    if k == 0 {
      AllocPrefixZero(h, lim, answers);
    } else {
      PrefixStatus(h, lim, answers, k - 1);
      var i, t := AllocPrefixStep(h, lim, answers, k);
      Visit(i, t, k - 1);
      var p := AllocPrefix(h, lim, answers, k - 1);
      VisitStatus(p.0, lim, p.1, i, t, AnswerAt(answers, k - 1));
      assert FailsAt(h, lim, answers, k - 1) <==> Fails(p.0, lim, i, t, AnswerAt(answers, k - 1));
    }
  }

  lemma Visit(i: nat, t: nat, k: nat)
    requires t < TYPE_BUS && TYPE_BUS * i + t == k
    ensures k / TYPE_BUS == i && k % TYPE_BUS == t
  {
  }

  /** AllocateResources succeeds if and only if something was submitted and no visit fails: one failure is
      not forgotten by the visits behind it. */
  lemma AllocateStatusIff(h: Host, lim: Limits, answers: seq<Answer>)
    requires h.WellShaped()
    ensures Notify(h, lim, AllocateResources, answers).1 == Success
       <==> h.submitted && forall k :: 0 <= k < TYPE_BUS * |h.bridges| ==> !FailsAt(h, lim, answers, k)
    ensures !h.submitted ==> Notify(h, lim, AllocateResources, answers) == (h, NotReady)
  {
    hide AllocPrefix, FailsAt;
    PrefixStatus(h, lim, answers, TYPE_BUS * |h.bridges|);
  }

  // ----- the status of FreeResources

  lemma FreeVisitStatus(h: Host, ret: EfiStatus, i: nat, t: nat, answer: Answer)
    requires h.WellShaped() && i < |h.bridges| && t < TYPE_BUS
    ensures var n, ret' := h.Node(i, t), FreeNode(h, ret, i, t, answer).1;
            if n.status == ResAllocated && t <= 1 && (n.length == 0 || Refused(answer)) then ret'.IsError() else ret' == ret
  {
  }

  /** The window of visit k cannot be freed. */
  predicate StuckAt(h: Host, answers: seq<Answer>, k: nat)
    requires h.WellShaped() && k < TYPE_BUS * |h.bridges|
  {
    var n := h.Node(k / TYPE_BUS, k % TYPE_BUS);
    n.status == ResAllocated && k % TYPE_BUS <= 1 && (n.length == 0 || Refused(AnswerAt(answers, k)))
  }

  lemma {:induction false} FreePrefixStatus(h: Host, answers: seq<Answer>, k: nat)
    requires h.WellShaped() && k <= TYPE_BUS * |h.bridges|
    ensures FreePrefix(h, answers, k).1 == Success <==> forall j :: 0 <= j < k ==> !StuckAt(h, answers, j)
    decreases k
  {
    hide FreeNode, FreePrefix, AnswerAt, Host.WellShaped, Host.Node;
    if k == 0 {
      FreePrefixZero(h, answers);
    } else {
      FreePrefixStatus(h, answers, k - 1);
      var i, t := FreePrefixStep(h, answers, k);
      Visit(i, t, k - 1);
      FreePrefixLocal(h, answers, k - 1, i, t);
      var p := FreePrefix(h, answers, k - 1);
      FreeVisitStatus(p.0, p.1, i, t, AnswerAt(answers, k - 1));
      assert StuckAt(h, answers, k - 1)
        <==> h.Node(i, t).status == ResAllocated && t <= 1 && (h.Node(i, t).length == 0 || Refused(AnswerAt(answers, k - 1)));
    }
  }

  /** FreeResources succeeds if and only if every allocated window has a length and the GCD frees it; either way
      nothing stays allocated, and a submission and an enumeration may start afresh. */
  lemma FreeStatusIff(h: Host, lim: Limits, answers: seq<Answer>)
    requires h.WellShaped()
    ensures var (h', st) := Notify(h, lim, FreeResources, answers);
            && (st == Success <==> forall k :: 0 <= k < TYPE_BUS * |h.bridges| ==> !StuckAt(h, answers, k))
            && NoneAllocated(h') && !h'.submitted && h'.canRestart
  {
    hide FreePrefix, StuckAt, NoneAllocated, Column;
    FreePrefixStatus(h, answers, TYPE_BUS * |h.bridges|);
    FreeLeavesNoneAllocated(h, lim, answers);
  }

  // ----- the other phases

  /** A BeginEnumeration that is allowed empties every node; nothing is freed in the GCD. */
  lemma RestartClears(h: Host, lim: Limits, answers: seq<Answer>)
    requires h.WellShaped() && h.canRestart
    ensures var (h', st) := Notify(h, lim, BeginEnumeration, answers);
            && st == Success && !h'.submitted && h'.canRestart && h'.io == h.io && h'.mem == h.mem
            && |h'.bridges| == |h.bridges|
            && forall i, t :: 0 <= i < |h.bridges| && 0 <= t < TYPE_MAX ==>
                 h'.Node(i, t) == ResNode(0, 0, h.Node(i, t).alignment, ResNone)
  {
  }

  /** The phases that neither enumerate, allocate nor free keep nodes and spaces; a phase the protocol does not
      know is refused. */
  lemma OtherPhases(h: Host, lim: Limits, phase: Phase, answers: seq<Answer>)
    requires h.WellShaped() && !phase.BeginEnumeration? && !phase.AllocateResources? && !phase.FreeResources?
    ensures var (h', st) := Notify(h, lim, phase, answers);
            && h'.bridges == h.bridges && h'.io == h.io && h'.mem == h.mem && h'.submitted == h.submitted
            && st == if phase.UnknownPhase? then InvalidParameter else Success
  {
  }

  // ----- when an enumeration may restart

  /** The calls after which an enumeration may not start again. */
  predicate Closes(e: Event) {
    e.NotifyEvent? && (e.phase.BeginBusAllocation? || e.phase.EndResourceAllocation?)
  }

  /** A FreeResources follows call k. */
  predicate FreedAfter(es: seq<Event>, k: int) {
    exists f :: k < f < |es| && 0 <= f && Frees(es[f])
  }

  predicate MayRestart(es: seq<Event>, initially: bool) {
    && (initially || FreedAfter(es, -1))
    && forall k :: 0 <= k < |es| && Closes(es[k]) ==> FreedAfter(es, k)
  }

  lemma StepRestart(h: Host, lim: Limits, e: Event)
    requires h.WellShaped() && e.Callable()
    ensures Step(h, lim, e).0.canRestart <==> Frees(e) || (h.canRestart && !Closes(e))
  {
    hide FreePrefix, SubmitPrefix, Scannable, RecordCount, FindBridge;
    if e.SubmitEvent? {
    } else if e.phase.AllocateResources? {
      AllocKeepsFlags(h, lim, e.answers, TYPE_BUS * |h.bridges|);
    }
  }

  lemma {:induction false} AllocKeepsFlags(h: Host, lim: Limits, answers: seq<Answer>, k: nat)
    requires h.WellShaped() && k <= TYPE_BUS * |h.bridges|
    ensures var p := AllocPrefix(h, lim, answers, k).0; p.canRestart == h.canRestart && p.submitted == h.submitted
    decreases k
  {
    hide AllocPrefix, AnswerAt, Allocate, AllocBits;
    if k == 0 {
      AllocPrefixZero(h, lim, answers);
    } else {
      AllocKeepsFlags(h, lim, answers, k - 1);
      var i, t := AllocPrefixStep(h, lim, answers, k);
    }
  }

  lemma RestartStep(es: seq<Event>, initially: bool)
    requires es != []
    ensures MayRestart(es, initially)
       <==> Frees(es[|es| - 1]) || (MayRestart(es[..|es| - 1], initially) && !Closes(es[|es| - 1]))
  {
    var n := |es| - 1;
    var p := es[..n];
    hide Frees, Closes;
    forall k | -1 <= k < n ensures FreedAfter(es, k) <==> Frees(es[n]) || FreedAfter(p, k) {
      if Frees(es[n]) {
        assert FreedAfter(es, k);
      } else {
        if f :| k < f < |es| && 0 <= f && Frees(es[f]) {
          assert Frees(p[f]);
        }
        if f :| k < f < |p| && 0 <= f && Frees(p[f]) {
          assert Frees(es[f]);
        }
      }
    }
    assert !FreedAfter(es, n);
    assert forall k :: 0 <= k < n ==> p[k] == es[k];
    FreesAndCloses(es[n]);
  }

  lemma FreesAndCloses(e: Event)
    ensures !(Frees(e) && Closes(e))
  {
  }

  /** BeginEnumeration succeeds after a run if and only if every BeginBusAllocation and EndResourceAllocation of
      the run was followed by a FreeResources (and the driver started that way, or freed); else it answers
      EFI_NOT_READY and changes nothing. */
  lemma {:induction false} RestartIff(h: Host, lim: Limits, es: seq<Event>, answers: seq<Answer>)
    requires h.WellShaped() && forall e :: e in es ==> e.Callable()
    ensures var h' := Run(h, lim, es);
            && (h'.canRestart <==> MayRestart(es, h.canRestart))
            && (Notify(h', lim, BeginEnumeration, answers).1 == Success <==> MayRestart(es, h.canRestart))
            && (!MayRestart(es, h.canRestart) ==> Notify(h', lim, BeginEnumeration, answers) == (h', NotReady))
    decreases |es|
  {
    hide MayRestart, Step, Frees, Closes;
    if es == [] {
      EmptyRestart(h.canRestart);
    } else {
      var n := |es| - 1;
      RestartIff(h, lim, es[..n], answers);
      StepRestart(Run(h, lim, es[..n]), lim, es[n]);
      RestartStep(es, h.canRestart);
    }
  }

  lemma EmptyRestart(initially: bool)
    ensures MayRestart([], initially) == initially
  {
  }

  // ----- when resources may be allocated

  /** A submission whose accepted records hold an empty one or ask for a window. */
  ghost predicate Enters(h: Host, e: Event) {
    && e.SubmitEvent? && e.config.Some? && Scannable(e.config.value, 0)
    && e.config.value[RECORD_SIZE * Records(e.config)] == END_TAG
    && exists i: nat, k: nat :: Addresses(h, e.handle, i) && 0 <= k < Records(e.config)
                      && EnteringRecord(h.bridges[i].attrib, e.config.value, k)
  }

  ghost predicate EnteringRecord(attrib: nat, s: seq<u8>, k: nat)
    requires RECORD_SIZE * (k + 1) <= |s|
  {
    var d := Decode(s, RECORD_SIZE * k);
    AllPass(attrib, s, k + 1) && (d.addrLen == 0 || Asks(d, 0) || Asks(d, 1))
  }

  lemma {:induction false} PrefixEnters(p: Submission, attrib: nat, s: seq<u8>, n: nat)
    requires |p.nodes| == TYPE_MAX && RECORD_SIZE * n <= |s| && p.ok
    ensures SubmitPrefix(p, attrib, s, n).submitted <==> p.submitted || exists k :: 0 <= k < n && EnteringRecord(attrib, s, k)
    decreases n
  {
    hide Decode, SubmitOne, Passes, Asks, EnteringRecord, SubmitPrefix;
    if n == 0 {
      PrefixNone(p, attrib, s);
    } else {
      PrefixEnters(p, attrib, s, n - 1);
      EntersStep(p, attrib, s, n);
    }
  }

  lemma PrefixNone(p: Submission, attrib: nat, s: seq<u8>)
    requires |p.nodes| == TYPE_MAX
    ensures SubmitPrefix(p, attrib, s, 0) == p
  {
  }

  lemma EntersStep(p: Submission, attrib: nat, s: seq<u8>, n: nat)
    requires |p.nodes| == TYPE_MAX && RECORD_SIZE * n <= |s| && p.ok && n > 0
    ensures SubmitPrefix(p, attrib, s, n).submitted
       <==> SubmitPrefix(p, attrib, s, n - 1).submitted || EnteringRecord(attrib, s, n - 1)
  {
    hide Decode, SubmitOne, Passes, Asks;
    var q, d := SubmitPrefix(p, attrib, s, n - 1), Decode(s, RECORD_SIZE * (n - 1));
    PrefixOk(p, attrib, s, n - 1);
    if q.ok {
      OneRecord(q, attrib, d, 0);
    } else {
      StaysRejected(q, attrib, d);
    }
  }

  lemma StepSubmitted(h: Host, lim: Limits, e: Event)
    requires h.WellShaped() && e.Callable()
    ensures Step(h, lim, e).0.submitted <==> Enters(h, e) || (h.submitted && !Resets(h, e))
  {
    hide FreePrefix;
    if e.SubmitEvent? {
      SubmitEnters(h, e);
      hide Submit, Enters;
    } else if e.phase.AllocateResources? {
      AllocKeepsFlags(h, lim, e.answers, TYPE_BUS * |h.bridges|);
    }
  }

  /** The calls that forget what was submitted: FreeResources, and a BeginEnumeration that succeeds. */
  predicate Resets(h: Host, e: Event) {
    Frees(e) || (e.NotifyEvent? && e.phase.BeginEnumeration? && h.canRestart)
  }

  lemma SubmitEnters(h: Host, e: Event)
    requires h.WellShaped() && e.Callable() && e.SubmitEvent?
    ensures Submit(h, e.handle, e.config).0.submitted <==> h.submitted || Enters(h, e)
  {
    hide SubmitPrefix, Scannable, RecordCount, EnteringRecord, FindBridge;
    if e.config.Some? && e.config.value[RECORD_SIZE * Records(e.config)] == END_TAG {
      var i := FindBridge(h.bridges, e.handle);
      FoundBridge(h, e.handle);
      if i < |h.bridges| {
        var b := h.bridges[i];
        PrefixEnters(Submission(true, b.nodes, h.submitted), b.attrib, e.config.value, Records(e.config));
      }
    }
  }

  lemma FoundBridge(h: Host, handle: int)
    ensures var i := FindBridge(h.bridges, handle);
            && i <= |h.bridges| && (i < |h.bridges| ==> Addresses(h, handle, i))
            && forall j :: Addresses(h, handle, j) ==> j == i
  {
  }

  lemma EntersLater(h: Host, h': Host, e: Event)
    requires SameFrame(h, h')
    ensures Enters(h', e) <==> Enters(h, e)
  {
    hide Scannable, EnteringRecord, Records;
    if Enters(h, e) {
      var i: nat, k: nat :| Addresses(h, e.handle, i) && 0 <= k < Records(e.config)
                            && EnteringRecord(h.bridges[i].attrib, e.config.value, k);
      assert Addresses(h', e.handle, i) && EnteringRecord(h'.bridges[i].attrib, e.config.value, k);
    }
    if Enters(h', e) {
      var i: nat, k: nat :| Addresses(h', e.handle, i) && 0 <= k < Records(e.config)
                            && EnteringRecord(h'.bridges[i].attrib, e.config.value, k);
      assert Addresses(h, e.handle, i) && EnteringRecord(h.bridges[i].attrib, e.config.value, k);
    }
  }

  /** From call j of the run on nothing resets it. */
  ghost predicate NoReset(h: Host, lim: Limits, es: seq<Event>, j: nat)
    requires h.WellShaped() && forall e :: e in es ==> e.Callable()
  {
    forall m :: j <= m < |es| ==> !Resets(Run(h, lim, es[..m]), es[m])
  }

  /** What was submitted and not reset since. */
  ghost predicate IsSubmitted(h: Host, lim: Limits, es: seq<Event>)
    requires h.WellShaped() && forall e :: e in es ==> e.Callable()
  {
    || (h.submitted && NoReset(h, lim, es, 0))
    || exists j :: 0 <= j < |es| && Enters(h, es[j]) && NoReset(h, lim, es, j + 1)
  }

  lemma NoResetStep(h: Host, lim: Limits, es: seq<Event>, j: nat)
    requires h.WellShaped() && (forall e :: e in es ==> e.Callable()) && es != []
    ensures j < |es| ==> (NoReset(h, lim, es, j) <==> NoReset(h, lim, es[..|es| - 1], j) && !Resets(Run(h, lim, es[..|es| - 1]), es[|es| - 1]))
    ensures NoReset(h, lim, es, |es|)
  {
    hide Run, Resets;
    var n := |es| - 1;
    assert forall m :: 0 <= m < n ==> es[..n][..m] == es[..m] && es[..n][m] == es[m];
  }

  lemma SubmittedStep(h: Host, lim: Limits, es: seq<Event>)
    requires h.WellShaped() && (forall e :: e in es ==> e.Callable()) && es != []
    ensures IsSubmitted(h, lim, es)
       <==> Enters(h, es[|es| - 1])
            || (IsSubmitted(h, lim, es[..|es| - 1]) && !Resets(Run(h, lim, es[..|es| - 1]), es[|es| - 1]))
  {
    hide Run, Resets, Enters, NoReset;
    var n := |es| - 1;
    NoResetStep(h, lim, es, 0);
    forall j | 0 <= j < n
      ensures NoReset(h, lim, es, j + 1) <==> NoReset(h, lim, es[..n], j + 1) && !Resets(Run(h, lim, es[..n]), es[n])
      ensures es[..n][j] == es[j]
    {
      NoResetStep(h, lim, es, j + 1);
    }
    assert NoReset(h, lim, es, n + 1);
    if j :| 0 <= j < n && Enters(h, es[..n][j]) && NoReset(h, lim, es[..n], j + 1) {
      assert Enters(h, es[j]);
    }
    if j :| 0 <= j < |es| && Enters(h, es[j]) && NoReset(h, lim, es, j + 1) {
      assert j < n ==> Enters(h, es[..n][j]);
    }
  }

  /** After a run AllocateResources answers EFI_NOT_READY, and changes nothing, unless a submission with an
      accepted record was made and no FreeResources or restarted enumeration came behind it. */
  lemma {:induction false} AllocateReadyIff(h: Host, lim: Limits, es: seq<Event>, answers: seq<Answer>)
    requires h.WellShaped() && forall e :: e in es ==> e.Callable()
    ensures var h' := Run(h, lim, es);
            && (h'.submitted <==> IsSubmitted(h, lim, es))
            && (!IsSubmitted(h, lim, es) ==> Notify(h', lim, AllocateResources, answers) == (h', NotReady))
    decreases |es|
  {
    hide IsSubmitted, Step, Enters, Resets, SameFrame;
    if es == [] {
      NothingSubmitted(h, lim);
    } else {
      var n := |es| - 1;
      var p := Run(h, lim, es[..n]);
      AllocateReadyIff(h, lim, es[..n], answers);
      StepSubmitted(p, lim, es[n]);
      RunKeepsHandles(h, lim, es[..n]);
      EntersLater(h, p, es[n]);
      SubmittedStep(h, lim, es);
    }
  }

  lemma NothingSubmitted(h: Host, lim: Limits)
    requires h.WellShaped()
    ensures IsSubmitted(h, lim, []) <==> h.submitted
  {
  }
}
