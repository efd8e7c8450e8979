/** What every run of the host bridge protocol keeps, whatever the GCD answers: allocated windows are
    owned, end at or below the aperture limit, are aligned and pairwise disjoint. */
module HostBridgeSafety {
  import opened Words
  import opened Efi
  import opened Gcd
  import opened AcpiDescriptor
  import opened HostBridgeModel

  // ----- one column: the nodes of one type, bridge by bridge

  /** Addresses a node claims. */
  function Claim(n: ResNode): set<int> {
    if n.status == ResAllocated then Span(n.base, n.length) else {}
  }

  /** A submitted length fits 32 bits and a submitted alignment is a mask 2^k - 1, k <= 31. */
  predicate NodeOk(n: ResNode) {
    && n.length <= 0xffff_ffff
    && n.alignment + 1 == Pow2(HighBitSet64(n.alignment) + 1)
    && HighBitSet64(n.alignment) + 1 <= 31
  }

  /** No base ever exceeds the limit; an allocated node ends at or below it and is aligned as
      far as the chipset can honour. */
  predicate Placed(n: ResNode, limit: int, idx: nat) {
    && (n.base == 0 || n.base <= limit)
    && (n.status == ResAllocated ==>
          && n.base % Pow2(AllocBits(idx, n.alignment)) == 0
          && (n.length > 0 ==> n.base + n.length - 1 <= limit))
  }

  ghost predicate ColumnInv(col: seq<ResNode>, sp: GcdSpace, limit: int, idx: nat) {
    && sp.owned <= sp.pool
    && (forall i :: 0 <= i < |col| ==> Claim(col[i]) <= sp.owned)
    && (forall i, j :: 0 <= i < j < |col| ==> Claim(col[i]) !! Claim(col[j]))
    && (forall i :: 0 <= i < |col| ==> NodeOk(col[i]) && Placed(col[i], limit, idx))
  }

  /** Replacing a node by one that claims no more keeps the column invariant. */
  lemma ColumnReplace(col: seq<ResNode>, sp: GcdSpace, limit: int, idx: nat, i: nat, n: ResNode)
    requires ColumnInv(col, sp, limit, idx) && i < |col|
    requires Claim(n) <= Claim(col[i]) && NodeOk(n) && Placed(n, limit, idx)
    ensures ColumnInv(col[i := n], sp, limit, idx)
  {
  }

  lemma ColumnGrant(col: seq<ResNode>, sp: GcdSpace, limit: int, idx: nat, i: nat, n: ResNode)
    requires ColumnInv(col, sp, limit, idx) && i < |col|
    requires Claim(n) <= sp.pool - sp.owned && NodeOk(n) && Placed(n, limit, idx)
    ensures ColumnInv(col[i := n], sp.(owned := sp.owned + Claim(n)), limit, idx)
  {
  }

  lemma ColumnRelease(col: seq<ResNode>, sp: GcdSpace, limit: int, idx: nat, i: nat, n: ResNode)
    requires ColumnInv(col, sp, limit, idx) && i < |col|
    requires Claim(n) == {} && NodeOk(n) && Placed(n, limit, idx)
    ensures ColumnInv(col[i := n], sp.(owned := sp.owned - Claim(col[i])), limit, idx)
  {
    var col', owned' := col[i := n], sp.owned - Claim(col[i]);
    forall j | 0 <= j < |col'|
      ensures Claim(col'[j]) <= owned'
    {
      assert j == i || Claim(col[j]) !! Claim(col[i]);
    }
  }

  // ----- the invariant of the whole host bridge

  function Column(h: Host, idx: nat): (col: seq<ResNode>)
    requires h.WellShaped() && idx < TYPE_MAX
    ensures |col| == |h.bridges|
  {
    seq(|h.bridges|, i requires 0 <= i < |h.bridges| => h.bridges[i].nodes[idx])
  }

  /** Prefetchable and 64-bit nodes are never allocated, and with the COMBINE attribute they
      never leave ResNone. */
  predicate Quiet(b: Bridge)
    requires |b.nodes| == TYPE_MAX
  {
    forall idx :: TYPE_PMEM32 <= idx <= TYPE_PMEM64 ==>
      && b.nodes[idx].status != ResAllocated
      && (b.attrib == COMBINE_MEM_PMEM ==> b.nodes[idx].status == ResNone)
  }

  ghost predicate Inv(h: Host, lim: Limits) {
    && h.WellShaped()
    && ColumnInv(Column(h, TYPE_IO), h.io, lim.io, TYPE_IO)
    && ColumnInv(Column(h, TYPE_MEM32), h.mem, lim.mem, TYPE_MEM32)
    && (forall i :: 0 <= i < |h.bridges| ==> Quiet(h.bridges[i]))
  }

  lemma ColumnOfUpdate(h: Host, i: nat, nodes: seq<ResNode>, idx: nat)
    requires h.WellShaped() && i < |h.bridges| && |nodes| == TYPE_MAX && idx < TYPE_MAX
    ensures var h' := h.(bridges := h.bridges[i := h.bridges[i].(nodes := nodes)]);
            h'.WellShaped() && Column(h', idx) == Column(h, idx)[i := nodes[idx]]
  {
  }

  lemma ColumnOfNode(h: Host, i: nat, idx: nat, n: ResNode, k: nat)
    requires h.WellShaped() && i < |h.bridges| && idx < TYPE_MAX && k < TYPE_MAX
    ensures Column(h.WithNode(i, idx, n), k) == if k == idx then Column(h, k)[i := n] else Column(h, k)
  {
    ColumnOfUpdate(h, i, h.bridges[i].nodes[idx := n], k);
    assert Column(h, k)[i := h.bridges[i].nodes[k]] == Column(h, k);
  }

  /** Replacing one I/O or Mem32 node and its space keeps the invariant if the column allows it. */
  lemma ReplaceCellKeepsInv(h: Host, lim: Limits, i: nat, idx: nat, n: ResNode, s: GcdSpace)
    requires Inv(h, lim) && i < |h.bridges| && idx <= TYPE_MEM32
    requires ColumnInv(Column(h, idx)[i := n], s, Limit(lim, idx), idx)
    ensures Inv(h.WithSpace(idx, s).WithNode(i, idx, n), lim)
  {
    ColumnOfNode(h.WithSpace(idx, s), i, idx, n, TYPE_IO);
    ColumnOfNode(h.WithSpace(idx, s), i, idx, n, TYPE_MEM32);
    assert Column(h.WithSpace(idx, s), TYPE_IO) == Column(h, TYPE_IO);
    assert Column(h.WithSpace(idx, s), TYPE_MEM32) == Column(h, TYPE_MEM32);
    assert Quiet(h.bridges[i]);
  }

  lemma {:induction false} AllocNodeKeepsInv(h: Host, lim: Limits, ret: EfiStatus, i: nat, idx: nat, answer: Answer)
    requires Inv(h, lim) && i < |h.bridges| && idx < TYPE_BUS
    ensures Inv(AllocNode(h, lim, ret, i, idx, answer).0, lim)
  {
    var n := h.Node(i, idx);
    if n.status != ResNone && idx <= TYPE_MEM32 {
      assert n == Column(h, idx)[i] && NodeOk(n);
      var (s, st, base) := Allocate(h.Space(idx), AllocBits(idx, n.alignment), n.length, Limit(lim, idx), answer);
      if st.Success? {
        var n' := n.(base := base, status := ResAllocated);
        ColumnGrant(Column(h, idx), h.Space(idx), Limit(lim, idx), idx, i, n');
        ReplaceCellKeepsInv(h, lim, i, idx, n', s);
      } else if st != OutOfResources {
        var n' := n.(length := 0);
        ColumnReplace(Column(h, idx), h.Space(idx), Limit(lim, idx), idx, i, n');
        ReplaceCellKeepsInv(h, lim, i, idx, n', h.Space(idx));
      }
    }
  }

  lemma {:induction false} AllocPrefixKeepsInv(h: Host, lim: Limits, answers: seq<Answer>, k: nat)
    requires h.WellShaped() && Inv(h, lim) && k <= TYPE_BUS * |h.bridges|
    ensures Inv(AllocPrefix(h, lim, answers, k).0, lim)
    decreases k
  {
    hide Inv, AllocNode, AllocPrefix, AnswerAt, Host.WellShaped;
    if k == 0 {
      AllocPrefixZero(h, lim, answers);
    } else {
      AllocPrefixKeepsInv(h, lim, answers, k - 1);
      var i, t := AllocPrefixStep(h, lim, answers, k);
      var p := AllocPrefix(h, lim, answers, k - 1);
      AllocNodeKeepsInv(p.0, lim, p.1, i, t, AnswerAt(answers, k - 1));
    }
  }

  lemma {:induction false} FreeNodeKeepsInv(h: Host, lim: Limits, ret: EfiStatus, i: nat, idx: nat, answer: Answer)
    requires Inv(h, lim) && i < |h.bridges| && idx < TYPE_BUS
    ensures Inv(FreeNode(h, ret, i, idx, answer).0, lim)
  {
    var n := h.Node(i, idx);
    if n.status == ResAllocated {
      assert Quiet(h.bridges[i]) && n == Column(h, idx)[i];
      var (s, st) := Free(h.Space(idx), n.base, n.length, answer);
      assert NodeOk(n) && NodeOk(Cleared(n));
      if st.Success? {
        ColumnRelease(Column(h, idx), h.Space(idx), Limit(lim, idx), idx, i, Cleared(n));
      } else {
        ColumnReplace(Column(h, idx), h.Space(idx), Limit(lim, idx), idx, i, Cleared(n));
      }
      ReplaceCellKeepsInv(h, lim, i, idx, Cleared(n), s);
    }
  }

  lemma {:induction false} FreePrefixKeepsInv(h: Host, lim: Limits, answers: seq<Answer>, k: nat)
    requires h.WellShaped() && Inv(h, lim) && k <= TYPE_BUS * |h.bridges|
    ensures Inv(FreePrefix(h, answers, k).0, lim)
    decreases k
  {
    hide Inv, FreeNode, FreePrefix, AnswerAt, Host.WellShaped;
    if k == 0 {
      FreePrefixZero(h, answers);
    } else {
      FreePrefixKeepsInv(h, lim, answers, k - 1);
      var i, t := FreePrefixStep(h, answers, k);
      var p := FreePrefix(h, answers, k - 1);
      FreeNodeKeepsInv(p.0, lim, p.1, i, t, AnswerAt(answers, k - 1));
    }
  }

  lemma ColumnCleared(col: seq<ResNode>, col': seq<ResNode>, sp: GcdSpace, limit: int, idx: nat)
    requires ColumnInv(col, sp, limit, idx) && |col'| == |col|
    requires forall i :: 0 <= i < |col| ==> col'[i] == Cleared(col[i])
    ensures ColumnInv(col', sp, limit, idx)
  {
  }

  lemma ColumnAfterRestart(h: Host, idx: nat)
    requires h.WellShaped() && idx < TYPE_MAX
    ensures |Column(h, idx)| == |Column(BeginEnumerationSpec(h), idx)| == |h.bridges|
    ensures forall i :: 0 <= i < |h.bridges| ==> Column(BeginEnumerationSpec(h), idx)[i] == Cleared(Column(h, idx)[i])
  {
  }

  lemma QuietAfterRestart(h: Host, i: nat)
    requires h.WellShaped() && i < |h.bridges|
    ensures Quiet(BeginEnumerationSpec(h).bridges[i])
  {
  }

  lemma BeginEnumerationKeepsInv(h: Host, lim: Limits)
    requires Inv(h, lim)
    ensures Inv(BeginEnumerationSpec(h), lim)
  {
    hide ColumnInv, Column, Quiet;
    var h' := BeginEnumerationSpec(h);
    ColumnAfterRestart(h, TYPE_IO);
    ColumnCleared(Column(h, TYPE_IO), Column(h', TYPE_IO), h.io, lim.io, TYPE_IO);
    ColumnAfterRestart(h, TYPE_MEM32);
    ColumnCleared(Column(h, TYPE_MEM32), Column(h', TYPE_MEM32), h.mem, lim.mem, TYPE_MEM32);
    forall i | 0 <= i < |h.bridges| ensures Quiet(h'.bridges[i]) {
      QuietAfterRestart(h, i);
    }
  }

  lemma NotifyKeepsInv(h: Host, lim: Limits, phase: Phase, answers: seq<Answer>)
    requires Inv(h, lim)
    ensures Inv(Notify(h, lim, phase, answers).0, lim)
  {
    match phase
    case BeginEnumeration => BeginEnumerationKeepsInv(h, lim);
    case AllocateResources => AllocPrefixKeepsInv(h, lim, answers, TYPE_BUS * |h.bridges|);
    case FreeResources =>
      FreePrefixKeepsInv(h, lim, answers, TYPE_BUS * |h.bridges|);
      FlagsDoNotMatter(FreePrefix(h, answers, TYPE_BUS * |h.bridges|).0, lim, false, true);
    case BeginBusAllocation => FlagsDoNotMatter(h, lim, h.submitted, false);
    case EndResourceAllocation => FlagsDoNotMatter(h, lim, h.submitted, false);
    case _ =>
  }

  lemma FlagsDoNotMatter(h: Host, lim: Limits, submitted: bool, canRestart: bool)
    requires Inv(h, lim)
    ensures Inv(h.(submitted := submitted, canRestart := canRestart), lim)
  {
    var h' := h.(submitted := submitted, canRestart := canRestart);
    assert Column(h', TYPE_IO) == Column(h, TYPE_IO);
    assert Column(h', TYPE_MEM32) == Column(h, TYPE_MEM32);
  }

  // ----- submission

  /** What one node keeps while a stream is submitted to its bridge. */
  predicate NodeKept(before: ResNode, after: ResNode, attrib: nat, idx: nat) {
    || after == before
    || (&& after.status != ResAllocated
        && after.base == before.base
        && (idx <= TYPE_MEM32 ==> NodeOk(after))
        && (idx >= TYPE_PMEM32 ==> attrib != COMBINE_MEM_PMEM))
  }

  predicate SubmissionOk(before: seq<ResNode>, p: Submission, attrib: nat) {
    && |before| == |p.nodes| == TYPE_MAX
    && (forall idx :: 0 <= idx < TYPE_MAX ==> NodeKept(before[idx], p.nodes[idx], attrib, idx))
  }

  /** The alignment check admits exactly masks whose exponent is at most 31. */
  lemma AlignmentCheck(a: nat)
    requires a < 0xffff_ffff && a == GetPowerOfTwo64(a + 1) - 1
    ensures a + 1 == Pow2(HighBitSet64(a) + 1) && HighBitSet64(a) + 1 <= 31
  {
    hide HighBitSet64, Pow2, GetPowerOfTwo64;
    MaskTestIsExact(a);
    Pow2Values();
    PowersApart(HighBitSet64(a) + 1, 31);
  }

  lemma RequestedOk(n: ResNode, d: Descriptor)
    requires d.addrLen <= 0xffff_ffff
    requires d.rangeMax < 0xffff_ffff && d.rangeMax == GetPowerOfTwo64(d.rangeMax + 1) - 1
    ensures NodeOk(Requested(n, d))
  {
    AlignmentCheck(d.rangeMax);
  }

  lemma {:induction false} SubmitOneOk(before: seq<ResNode>, p: Submission, attrib: nat, d: Descriptor)
    requires SubmissionOk(before, p, attrib)
    ensures SubmissionOk(before, SubmitOne(p, attrib, d), attrib)
  {
    hide GetPowerOfTwo64, NodeOk;
    var nodes' := SubmitOne(p, attrib, d).nodes;
    if nodes' != p.nodes {
      var k := if d.resType == 1 then TYPE_IO else if d.specificFlag == 6 then TYPE_PMEM32 else TYPE_MEM32;
      if k <= TYPE_MEM32 {
        RequestedOk(p.nodes[k], d);
      }
      assert nodes' == p.nodes[k := nodes'[k]];
      assert NodeKept(before[k], nodes'[k], attrib, k);
    }
  }

  lemma {:induction false} SubmitPrefixOk(p: Submission, attrib: nat, s: seq<u8>, k: nat)
    requires |p.nodes| == TYPE_MAX && RECORD_SIZE * k <= |s|
    ensures SubmissionOk(p.nodes, SubmitPrefix(p, attrib, s, k), attrib)
    decreases k
  {
    if k > 0 {
      SubmitPrefixOk(p, attrib, s, k - 1);
      SubmitOneOk(p.nodes, SubmitPrefix(p, attrib, s, k - 1), attrib, Decode(s, RECORD_SIZE * (k - 1)));
    }
  }

  lemma ReplaceNodesKeepsInv(h: Host, lim: Limits, i: nat, p: Submission)
    requires Inv(h, lim) && i < |h.bridges|
    requires SubmissionOk(h.bridges[i].nodes, p, h.bridges[i].attrib)
    ensures Inv(h.(bridges := h.bridges[i := h.bridges[i].(nodes := p.nodes)]), lim)
  {
    assert Quiet(h.bridges[i]);
    forall idx | 0 <= idx <= TYPE_MEM32
      ensures ColumnInv(Column(h, idx)[i := p.nodes[idx]], h.Space(idx), Limit(lim, idx), idx)
    {
      assert NodeKept(Column(h, idx)[i], p.nodes[idx], h.bridges[i].attrib, idx);
      ColumnReplace(Column(h, idx), h.Space(idx), Limit(lim, idx), idx, i, p.nodes[idx]);
    }
    ColumnOfUpdate(h, i, p.nodes, TYPE_IO);
    ColumnOfUpdate(h, i, p.nodes, TYPE_MEM32);
  }

  lemma SubmitKeepsInv(h: Host, lim: Limits, handle: int, config: Option<seq<u8>>)
    requires Inv(h, lim)
    requires config.Some? ==> Scannable(config.value, 0)
    ensures Inv(Submit(h, handle, config).0, lim)
  {
    var h' := Submit(h, handle, config).0;
    if h' != h {
      var s, i := config.value, FindBridge(h.bridges, handle);
      RecordsAreWhole(s, 0);
      var before := Submission(true, h.bridges[i].nodes, h.submitted);
      SubmitPrefixOk(before, h.bridges[i].attrib, s, RecordCount(s, 0));
      var p := SubmitPrefix(before, h.bridges[i].attrib, s, RecordCount(s, 0));
      ReplaceNodesKeepsInv(h, lim, i, p);
      FlagsDoNotMatter(h.(bridges := h.bridges[i := h.bridges[i].(nodes := p.nodes)]), lim, p.submitted, h.canRestart);
    }
  }

  // ----- runs

  /** A host bridge as InitializePciHostBridge leaves it: nothing requested, nothing owned. */
  ghost predicate Initial(h: Host) {
    && h.WellShaped()
    && h.io.owned == {} && h.mem.owned == {}
    && forall i, idx :: 0 <= i < |h.bridges| && 0 <= idx < TYPE_MAX ==> h.Node(i, idx) == ResNode(0, 0, 0, ResNone)
  }

  lemma InitialShape(h: Host)
    requires Initial(h)
    ensures h.WellShaped()
  {
  }

  lemma InitialInv(h: Host, lim: Limits)
    requires Initial(h)
    ensures Inv(h, lim)
  {
    assert Pow2(0) == 1;
    forall idx | 0 <= idx < TYPE_MAX
      ensures forall i :: 0 <= i < |h.bridges| ==> Column(h, idx)[i] == ResNode(0, 0, 0, ResNone)
    {
      assert forall i :: 0 <= i < |h.bridges| ==> Column(h, idx)[i] == h.Node(i, idx);
    }
    forall i | 0 <= i < |h.bridges|
      ensures Quiet(h.bridges[i])
    {
      assert forall idx :: 0 <= idx < TYPE_MAX ==> h.bridges[i].nodes[idx] == h.Node(i, idx);
    }
  }

  /** What no call changes: the bridges, their handles and attributes, and the GCD pools. */
  predicate SameFrame(h: Host, h': Host) {
    && |h'.bridges| == |h.bridges|
    && h'.io.pool == h.io.pool && h'.mem.pool == h.mem.pool
    && forall i :: 0 <= i < |h.bridges| ==>
         h'.bridges[i].handle == h.bridges[i].handle && h'.bridges[i].attrib == h.bridges[i].attrib
  }

  lemma WithNodeFrame(h: Host, i: nat, t: nat, n: ResNode)
    requires h.WellShaped() && i < |h.bridges| && t < TYPE_MAX
    ensures SameFrame(h, h.WithNode(i, t, n))
  {
  }

  lemma WithSpaceFrame(h: Host, idx: nat, s: GcdSpace)
    requires s.pool == h.Space(idx).pool
    ensures SameFrame(h, h.WithSpace(idx, s)) && h.WithSpace(idx, s).bridges == h.bridges
  {
  }

  lemma SameFrameTrans(a: Host, b: Host, c: Host)
    requires SameFrame(a, b) && SameFrame(b, c)
    ensures SameFrame(a, c)
  {
  }

  /** A new node, and the space it was allocated from or freed to. */
  lemma CellFrame(h: Host, i: nat, t: nat, n: ResNode, s: GcdSpace)
    requires h.WellShaped() && i < |h.bridges| && t < TYPE_MAX && s.pool == h.Space(t).pool
    ensures h.WithSpace(t, s).WellShaped() && i < |h.WithSpace(t, s).bridges|
    ensures SameFrame(h, h.WithSpace(t, s).WithNode(i, t, n))
  {
    WithSpaceFrame(h, t, s);
    WithNodeFrame(h.WithSpace(t, s), i, t, n);
    hide SameFrame;
    SameFrameTrans(h, h.WithSpace(t, s), h.WithSpace(t, s).WithNode(i, t, n));
  }

  lemma SameFrameSelf(h: Host)
    ensures SameFrame(h, h)
  {
  }

  lemma AllocNodeFrame(h: Host, lim: Limits, ret: EfiStatus, i: nat, t: nat, answer: Answer)
    requires h.WellShaped() && i < |h.bridges| && t < TYPE_BUS
    ensures SameFrame(h, AllocNode(h, lim, ret, i, t, answer).0)
  {
    hide SameFrame, AllocBits, Grantable, Refusal, Span, Limit, Host.WithNode, Host.WithSpace;
    var n := h.Node(i, t);
    var (s, st, base) := Allocate(h.Space(t), AllocBits(t, n.alignment), n.length, Limit(lim, t), answer);
    CellFrame(h, i, t, n.(base := base, status := ResAllocated), s);
    WithNodeFrame(h, i, t, n.(length := 0));
    SameFrameSelf(h);
  }

  lemma FreeNodeFrame(h: Host, ret: EfiStatus, i: nat, t: nat, answer: Answer)
    requires h.WellShaped() && i < |h.bridges| && t < TYPE_BUS
    ensures SameFrame(h, FreeNode(h, ret, i, t, answer).0)
  {
    hide SameFrame, Refused, Refusal, Span, Host.WithNode, Host.WithSpace;
    var n := h.Node(i, t);
    CellFrame(h, i, t, Cleared(n), Free(h.Space(t), n.base, n.length, answer).0);
    WithNodeFrame(h, i, t, Cleared(n));
    SameFrameSelf(h);
  }

  lemma {:induction false} AllocPrefixFrame(h: Host, lim: Limits, answers: seq<Answer>, k: nat)
    requires h.WellShaped() && k <= TYPE_BUS * |h.bridges|
    ensures SameFrame(h, AllocPrefix(h, lim, answers, k).0)
    decreases k
  {
    hide AllocNode, AllocPrefix, SameFrame, AnswerAt, Host.WellShaped;
    if k == 0 {
      AllocPrefixZero(h, lim, answers);
      SameFrameSelf(h);
    } else {
      AllocPrefixFrame(h, lim, answers, k - 1);
      var i, t := AllocPrefixStep(h, lim, answers, k);
      var p := AllocPrefix(h, lim, answers, k - 1);
      AllocNodeFrame(p.0, lim, p.1, i, t, AnswerAt(answers, k - 1));
      SameFrameTrans(h, p.0, AllocPrefix(h, lim, answers, k).0);
    }
  }

  lemma {:induction false} FreePrefixFrame(h: Host, answers: seq<Answer>, k: nat)
    requires h.WellShaped() && k <= TYPE_BUS * |h.bridges|
    ensures SameFrame(h, FreePrefix(h, answers, k).0)
    decreases k
  {
    hide FreeNode, FreePrefix, SameFrame, AnswerAt, Host.WellShaped;
    if k == 0 {
      FreePrefixZero(h, answers);
      SameFrameSelf(h);
    } else {
      FreePrefixFrame(h, answers, k - 1);
      var i, t := FreePrefixStep(h, answers, k);
      var p := FreePrefix(h, answers, k - 1);
      FreeNodeFrame(p.0, p.1, i, t, AnswerAt(answers, k - 1));
      SameFrameTrans(h, p.0, FreePrefix(h, answers, k).0);
    }
  }

  lemma NotifyFrame(h: Host, lim: Limits, phase: Phase, answers: seq<Answer>)
    requires h.WellShaped()
    ensures SameFrame(h, Notify(h, lim, phase, answers).0)
  {
    hide AllocPrefix, FreePrefix;
    match phase
    case AllocateResources => AllocPrefixFrame(h, lim, answers, TYPE_BUS * |h.bridges|);
    case FreeResources => FreePrefixFrame(h, answers, TYPE_BUS * |h.bridges|);
    case _ =>
  }

  lemma SubmitFrame(h: Host, handle: int, config: Option<seq<u8>>)
    requires h.WellShaped()
    requires config.Some? ==> Scannable(config.value, 0)
    ensures SameFrame(h, Submit(h, handle, config).0)
  {
    hide SubmitPrefix, FindBridge, RecordCount, Scannable;
  }

  lemma StepKeepsInv(h: Host, lim: Limits, e: Event)
    requires h.WellShaped() && Inv(h, lim) && e.Callable()
    ensures Inv(Step(h, lim, e).0, lim) && SameFrame(h, Step(h, lim, e).0)
  {
    hide Inv, Notify, Submit, SameFrame;
    match e
    case NotifyEvent(phase, answers) =>
      NotifyKeepsInv(h, lim, phase, answers);
      NotifyFrame(h, lim, phase, answers);
    case SubmitEvent(handle, config) =>
      SubmitKeepsInv(h, lim, handle, config);
      SubmitFrame(h, handle, config);
  }

  /** The invariant holds in every state any sequence of calls can reach. */
  lemma {:induction false} ReachableInv(h: Host, lim: Limits, es: seq<Event>)
    requires Initial(h) && forall e :: e in es ==> e.Callable()
    ensures Inv(Run(h, lim, es), lim) && SameFrame(h, Run(h, lim, es))
    decreases |es|
  {
    if es == [] {
      InitialInv(h, lim);
    } else {
      ReachableInv(h, lim, es[..|es| - 1]);
      StepKeepsInv(Run(h, lim, es[..|es| - 1]), lim, es[|es| - 1]);
    }
  }

  // ----- the promises, in the protocol's own terms

  /** What the safety invariant alone says of one node. */
  lemma CellIsOwned(h: Host, lim: Limits, i: nat, idx: nat)
    requires Inv(h, lim) && i < |h.bridges| && idx <= TYPE_MEM32
    ensures var n := h.Node(i, idx);
            && Claim(n) <= h.Space(idx).owned <= h.Space(idx).pool && NodeOk(n)
            && forall j :: 0 <= j < |h.bridges| && j != i ==> Claim(h.Node(j, idx)) !! Claim(n)
  {
    var col := Column(h, idx);
    assert forall j :: 0 <= j < |h.bridges| ==> col[j] == h.Node(j, idx);
    forall j | 0 <= j < |h.bridges| && j != i ensures Claim(h.Node(j, idx)) !! Claim(h.Node(i, idx)) {
      assert if j < i then Claim(col[j]) !! Claim(col[i]) else Claim(col[i]) !! Claim(col[j]);
    }
  }

  /** After any calls in any order: an allocated window is owned in the GCD, drawn from the space
      the driver added, and ends at or below the aperture limit. */
  lemma AllocatedWindowIsOwned(h: Host, lim: Limits, es: seq<Event>, i: nat, idx: nat)
    requires Initial(h) && forall e :: e in es ==> e.Callable()
    requires i < |h.bridges| && idx <= TYPE_MEM32
    ensures var h' := Run(h, lim, es);
            && |h'.bridges| == |h.bridges|
            && var n := h'.Node(i, idx);
            n.status == ResAllocated ==>
              && Span(n.base, n.length) <= h'.Space(idx).owned
              && Span(n.base, n.length) <= h.Space(idx).pool
              && (n.length > 0 ==> n.base + n.length - 1 <= Limit(lim, idx))
  {
    hide Run, Inv;
    ReachableInv(h, lim, es);
    var h' := Run(h, lim, es);
    CellIsOwned(h', lim, i, idx);
    CellIsPlaced(h', lim, i, idx);
  }

  /** Windows of different root bridges in the same space never overlap. */
  lemma AllocatedWindowsAreDisjoint(h: Host, lim: Limits, es: seq<Event>, i: nat, j: nat, idx: nat)
    requires Initial(h) && forall e :: e in es ==> e.Callable()
    requires i < |h.bridges| && j < |h.bridges| && i != j && idx <= TYPE_MEM32
    ensures var h' := Run(h, lim, es);
            && |h'.bridges| == |h.bridges|
            && var n, m := h'.Node(i, idx), h'.Node(j, idx);
            n.status == ResAllocated && m.status == ResAllocated && n.length > 0 && m.length > 0 ==>
              n.base + n.length <= m.base || m.base + m.length <= n.base
  {
    hide Run, Inv;
    ReachableInv(h, lim, es);
    var h' := Run(h, lim, es);
    CellIsOwned(h', lim, i, idx);
    var n, m := h'.Node(i, idx), h'.Node(j, idx);
    if n.status == ResAllocated && m.status == ResAllocated && n.length > 0 && m.length > 0 {
      assert Claim(n) !! Claim(m);
      assert n.base in Claim(n) && m.base in Claim(m);
    }
  }

  /** An allocated base is a multiple of Alignment + 1: always in Mem32, in I/O space whenever
      Alignment is at most 0x7FFF (larger I/O alignments are dropped by the driver). */
  lemma AllocatedBaseIsAligned(h: Host, lim: Limits, es: seq<Event>, i: nat, idx: nat)
    requires Initial(h) && forall e :: e in es ==> e.Callable()
    requires i < |h.bridges| && idx <= TYPE_MEM32
    ensures var h' := Run(h, lim, es);
            && |h'.bridges| == |h.bridges|
            && var n := h'.Node(i, idx);
            n.status == ResAllocated && (idx == TYPE_MEM32 || n.alignment <= 0x7FFF) ==>
              n.base % (n.alignment + 1) == 0
  {
    assert h.WellShaped();
    hide Run, Inv, Initial, Placed, NodeOk;
    ReachableInv(h, lim, es);
    var h' := Run(h, lim, es);
    CellIsPlaced(h', lim, i, idx);
    PlacedIsAligned(h'.Node(i, idx), Limit(lim, idx), idx);
  }

  lemma CellIsPlaced(h: Host, lim: Limits, i: nat, idx: nat)
    requires Inv(h, lim) && i < |h.bridges| && idx <= TYPE_MEM32
    ensures NodeOk(h.Node(i, idx)) && Placed(h.Node(i, idx), Limit(lim, idx), idx)
  {
    assert h.Node(i, idx) == Column(h, idx)[i];
  }

  lemma PlacedIsAligned(n: ResNode, limit: int, idx: nat)
    requires NodeOk(n) && Placed(n, limit, idx) && idx <= TYPE_MEM32
    ensures n.status == ResAllocated && (idx == TYPE_MEM32 || n.alignment <= 0x7FFF) ==>
              n.base % (n.alignment + 1) == 0
  {
    Pow2Values();
    if HighBitSet64(n.alignment) + 1 >= 16 {
      PowersApart(15, HighBitSet64(n.alignment) + 1);
    }
  }

  /** With the hard-coded COMBINE attribute the other memory nodes stay ResNone for ever. */
  lemma CombineKeepsOtherNodesIdle(h: Host, lim: Limits, es: seq<Event>, i: nat, idx: nat)
    requires Initial(h) && forall e :: e in es ==> e.Callable()
    requires i < |h.bridges| && h.bridges[i].attrib == COMBINE_MEM_PMEM
    requires TYPE_PMEM32 <= idx <= TYPE_PMEM64
    ensures |Run(h, lim, es).bridges| == |h.bridges|
    ensures Run(h, lim, es).Node(i, idx).status == ResNone
  {
    ReachableInv(h, lim, es);
    assert Quiet(Run(h, lim, es).bridges[i]);
  }
}
