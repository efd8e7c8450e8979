/** What a submission asks for, record by record of its stream, and what is allocated for it afterwards: the
    length and the alignment of the last accepted record of the type, until the bridge submits again. */
module HostBridgeRequests {
  import opened Words
  import opened Efi
  import opened Gcd
  import opened AcpiDescriptor
  import opened HostBridgeModel
  import opened HostBridgeSafety
  import opened HostBridgeDiscipline
  import opened HostBridgeAccounting
  import opened HostBridgeConservation

  // ----- one record

  /** The checks a record must pass: a length of at most 32 bits and an alignment mask, and for memory a
      granularity of 32 and, on a bridge that combines them, no prefetchable memory.  An empty record
      passes as it is. */
  ghost predicate Passes(attrib: nat, d: Descriptor) {
    || d.addrLen == 0
    || (&& d.addrLen <= 0xFFFF_FFFF && d.rangeMax < 0xFFFF_FFFF && IsMask(d.rangeMax)
        && (d.resType == 0 ==> d.granularity == 32 && !(attrib == 1 && d.specificFlag == 6)))
  }

  ghost predicate IsMask(m: nat) {
    exists k: nat :: m + 1 == Pow2(k)
  }

  /** The record asks for a window of type t: 0 for I/O, 1 for memory that is not prefetchable. */
  predicate Asks(d: Descriptor, t: nat) {
    d.addrLen > 0 && ((t == 0 && d.resType == 1) || (t == 1 && d.resType == 0 && d.specificFlag != 6))
  }

  lemma MaskTest(a: nat)
    ensures a == GetPowerOfTwo64(a + 1) - 1 <==> IsMask(a)
  {
    MaskTestIsExact(a);
    if a == GetPowerOfTwo64(a + 1) - 1 {
      var k: nat :| a + 1 == Pow2(k);
      assert IsMask(a);
    }
    if IsMask(a) {
      var k: nat :| a + 1 == Pow2(k);
      assert exists j: nat :: a + 1 == Pow2(j);
    }
  }

  lemma OneRecord(p: Submission, attrib: nat, d: Descriptor, t: nat)
    requires |p.nodes| == TYPE_MAX && p.ok && t <= 1
    ensures var r := SubmitOne(p, attrib, d);
            && (r.ok <==> Passes(attrib, d))
            && r.nodes[t] == (if Passes(attrib, d) && Asks(d, t)
                              then p.nodes[t].(length := d.addrLen, alignment := d.rangeMax, status := ResRequested)
                              else p.nodes[t])
            && (r.submitted <==> p.submitted || (Passes(attrib, d) && (d.addrLen == 0 || Asks(d, 0) || Asks(d, 1))))
  {
    MaskTest(d.rangeMax);
    hide GetPowerOfTwo64, IsMask;
  }

  // ----- the stream

  ghost predicate AllPass(attrib: nat, s: seq<u8>, k: nat)
    requires RECORD_SIZE * k <= |s|
  {
    forall j :: 0 <= j < k ==> Passes(attrib, Decode(s, RECORD_SIZE * j))
  }

  lemma PrefixOk(p: Submission, attrib: nat, s: seq<u8>, n: nat)
    requires |p.nodes| == TYPE_MAX && RECORD_SIZE * n <= |s| && p.ok
    ensures SubmitPrefix(p, attrib, s, n).ok <==> AllPass(attrib, s, n)
  {
    hide Decode, SubmitOne, Passes;
    if n > 0 {
      PrefixOk(p, attrib, s, n - 1);
      if SubmitPrefix(p, attrib, s, n - 1).ok {
        OneRecord(SubmitPrefix(p, attrib, s, n - 1), attrib, Decode(s, RECORD_SIZE * (n - 1)), 0);
      } else {
        StaysRejected(SubmitPrefix(p, attrib, s, n - 1), attrib, Decode(s, RECORD_SIZE * (n - 1)));
      }
    }
  }

  lemma StaysRejected(p: Submission, attrib: nat, d: Descriptor)
    requires |p.nodes| == TYPE_MAX && !p.ok
    ensures SubmitOne(p, attrib, d) == p
  {
  }

  /** Record k is accepted, with all before it, and asks for a window of type t. */
  ghost predicate AsksAt(attrib: nat, s: seq<u8>, k: nat, t: nat)
    requires RECORD_SIZE * (k + 1) <= |s|
  {
    AllPass(attrib, s, k + 1) && Asks(Decode(s, RECORD_SIZE * k), t)
  }

  /** Record k is the last of the first n that is accepted and asks for a window of type t. */
  ghost predicate LastAsking(attrib: nat, s: seq<u8>, n: nat, k: nat, t: nat)
    requires RECORD_SIZE * n <= |s|
  {
    k < n && AsksAt(attrib, s, k, t) && forall j :: k < j < n ==> !AsksAt(attrib, s, j, t)
  }

  lemma PrefixStep(p: Submission, attrib: nat, s: seq<u8>, n: nat, t: nat)
    requires |p.nodes| == TYPE_MAX && RECORD_SIZE * n <= |s| && p.ok && t <= 1 && n > 0
    ensures var d := Decode(s, RECORD_SIZE * (n - 1));
            var q := SubmitPrefix(p, attrib, s, n - 1).nodes[t];
            SubmitPrefix(p, attrib, s, n).nodes[t]
              == if AsksAt(attrib, s, n - 1, t) then q.(length := d.addrLen, alignment := d.rangeMax, status := ResRequested) else q
  {
    hide Decode, SubmitOne, Passes, Asks;
    var q, d := SubmitPrefix(p, attrib, s, n - 1), Decode(s, RECORD_SIZE * (n - 1));
    PrefixOk(p, attrib, s, n - 1);
    if q.ok {
      OneRecord(q, attrib, d, t);
    } else {
      StaysRejected(q, attrib, d);
    }
  }

  lemma {:induction false} PrefixUnasked(p: Submission, attrib: nat, s: seq<u8>, n: nat, t: nat)
    requires |p.nodes| == TYPE_MAX && RECORD_SIZE * n <= |s| && p.ok && t <= 1
    requires forall j :: 0 <= j < n ==> !AsksAt(attrib, s, j, t)
    ensures SubmitPrefix(p, attrib, s, n).nodes[t] == p.nodes[t]
    decreases n
  {
    hide AsksAt, SubmitOne, Decode;
    if n > 0 {
      PrefixStep(p, attrib, s, n, t);
      PrefixUnasked(p, attrib, s, n - 1, t);
    }
  }

  lemma {:induction false} PrefixBase(p: Submission, attrib: nat, s: seq<u8>, n: nat, t: nat)
    requires |p.nodes| == TYPE_MAX && RECORD_SIZE * n <= |s| && p.ok && t <= 1
    ensures SubmitPrefix(p, attrib, s, n).nodes[t].base == p.nodes[t].base
    decreases n
  {
    hide AsksAt, SubmitOne, Decode;
    if n > 0 {
      PrefixStep(p, attrib, s, n, t);
      PrefixBase(p, attrib, s, n - 1, t);
    }
  }

  /** The node holds the length and the alignment of the last record that asks for it, and its old base. */
  lemma {:induction false} PrefixAsked(p: Submission, attrib: nat, s: seq<u8>, n: nat, k: nat, t: nat)
    requires |p.nodes| == TYPE_MAX && RECORD_SIZE * n <= |s| && p.ok && t <= 1 && LastAsking(attrib, s, n, k, t)
    ensures var d := Decode(s, RECORD_SIZE * k);
            SubmitPrefix(p, attrib, s, n).nodes[t] == ResNode(p.nodes[t].base, d.addrLen, d.rangeMax, ResRequested)
    decreases n
  {
    hide AsksAt, SubmitOne, Decode;
    PrefixStep(p, attrib, s, n, t);
    PrefixBase(p, attrib, s, n - 1, t);
    if k < n - 1 {
      PrefixAsked(p, attrib, s, n - 1, k, t);
    }
  }

  // ----- one submission

  lemma PrefixNode(p: Submission, a: nat, s: seq<u8>, n: nat, t: nat)
    requires |p.nodes| == TYPE_MAX && RECORD_SIZE * n <= |s| && p.ok && t <= 1
    ensures forall k :: LastAsking(a, s, n, k, t) ==>
              var d := Decode(s, RECORD_SIZE * k);
              SubmitPrefix(p, a, s, n).nodes[t] == ResNode(p.nodes[t].base, d.addrLen, d.rangeMax, ResRequested)
    ensures (forall k :: 0 <= k < n ==> !AsksAt(a, s, k, t)) ==> SubmitPrefix(p, a, s, n).nodes[t] == p.nodes[t]
  {
    hide Decode, AsksAt, SubmitPrefix;
    forall k | LastAsking(a, s, n, k, t)
      ensures SubmitPrefix(p, a, s, n).nodes[t]
           == ResNode(p.nodes[t].base, Decode(s, RECORD_SIZE * k).addrLen, Decode(s, RECORD_SIZE * k).rangeMax, ResRequested)
    {
      PrefixAsked(p, a, s, n, k, t);
    }
    if forall k :: 0 <= k < n ==> !AsksAt(a, s, k, t) {
      PrefixUnasked(p, a, s, n, t);
    }
  }

  /** The records of a stream, up to its end tag. */
  function Records(config: Option<seq<u8>>): (n: nat)
    requires config.Some? && Scannable(config.value, 0)
    ensures RECORD_SIZE * n < |config.value|
  {
    RecordsAreWhole(config.value, 0);
    RecordCount(config.value, 0)
  }

  /** The bridge a submission addresses: the first with this handle. */
  predicate Addresses(h: Host, handle: int, i: nat) {
    i < |h.bridges| && h.bridges[i].handle == handle && forall j :: 0 <= j < i ==> h.bridges[j].handle != handle
  }

  lemma AddressedBridge(h: Host, handle: int, i: nat)
    requires Addresses(h, handle, i)
    ensures FindBridge(h.bridges, handle) == i
  {
  }

  /** A stream that ends in its tag and addresses a bridge is accepted if and only if every record passes;
      its I/O and Mem32 nodes are requested with the length and the alignment of the last accepted record
      of the type, or stay as they were if no accepted record asks. */
  lemma SubmittedNodes(h: Host, handle: int, config: Option<seq<u8>>, i: nat, t: nat)
    requires h.WellShaped() && config.Some? && Scannable(config.value, 0) && t <= 1
    requires config.value[RECORD_SIZE * Records(config)] == END_TAG && Addresses(h, handle, i)
    ensures var (h', st) := Submit(h, handle, config);
            var a, s, n := h.bridges[i].attrib, config.value, Records(config);
            && (st == Success <==> AllPass(a, s, n)) && st in {Success, InvalidParameter}
            && |h'.bridges| == |h.bridges|
            && (forall k :: LastAsking(a, s, n, k, t) ==>
                  var d := Decode(s, RECORD_SIZE * k);
                  h'.Node(i, t) == ResNode(h.Node(i, t).base, d.addrLen, d.rangeMax, ResRequested))
            && ((forall k :: 0 <= k < n ==> !AsksAt(a, s, k, t)) ==> h'.Node(i, t) == h.Node(i, t))
            && forall j, u :: 0 <= j < |h.bridges| && 0 <= u < TYPE_MAX && j != i ==> h'.Node(j, u) == h.Node(j, u)
  {
    AddressedBridge(h, handle, i);
    hide Decode, LastAsking, AsksAt, AllPass, SubmitPrefix, Scannable, RecordCount, FindBridge;
    var a, s, n := h.bridges[i].attrib, config.value, Records(config);
    var p := Submission(true, h.bridges[i].nodes, h.submitted);
    PrefixOk(p, a, s, n);
    PrefixNode(p, a, s, n, t);
  }

  /** A NULL or untagged stream, and an unknown handle, are refused and change nothing. */
  lemma SubmitRefused(h: Host, handle: int, config: Option<seq<u8>>)
    requires h.WellShaped() && (config.Some? ==> Scannable(config.value, 0))
    requires || config.None? || config.value[RECORD_SIZE * Records(config)] != END_TAG
             || forall j :: 0 <= j < |h.bridges| ==> h.bridges[j].handle != handle
    ensures Submit(h, handle, config) == (h, InvalidParameter)
  {
    hide Scannable, RecordCount, SubmitPrefix;
  }

  // ----- what later calls keep of a request

  /** The alignment stays, and the length does or becomes zero. */
  predicate KeepsRequest(n: ResNode, n': ResNode) {
    n'.alignment == n.alignment && (n'.length == n.length || n'.length == 0)
  }

  lemma AllocNodeKeepsRequest(h: Host, lim: Limits, ret: EfiStatus, j: nat, u: nat, answer: Answer, i: nat, t: nat)
    requires h.WellShaped() && j < |h.bridges| && u < TYPE_BUS && i < |h.bridges| && t < TYPE_MAX
    ensures KeepsRequest(h.Node(i, t), AllocNode(h, lim, ret, j, u, answer).0.Node(i, t))
  {
    if i == j && t == u {
      VisitKeepsRequest(h, lim, ret, i, t, answer);
    } else {
      hide AllocNode, Claim;
      AllocNodeEffect(h, lim, ret, j, u, answer);
    }
  }

  lemma VisitKeepsRequest(h: Host, lim: Limits, ret: EfiStatus, i: nat, t: nat, answer: Answer)
    requires h.WellShaped() && i < |h.bridges| && t < TYPE_BUS
    ensures KeepsRequest(h.Node(i, t), AllocNode(h, lim, ret, i, t, answer).0.Node(i, t))
  {
    hide Allocate, AllocBits, Limit;
  }

  lemma FreeNodeKeepsRequest(h: Host, ret: EfiStatus, j: nat, u: nat, answer: Answer, i: nat, t: nat)
    requires h.WellShaped() && j < |h.bridges| && u < TYPE_BUS && i < |h.bridges| && t < TYPE_MAX
    ensures KeepsRequest(h.Node(i, t), FreeNode(h, ret, j, u, answer).0.Node(i, t))
  {
    hide Free;
  }

  lemma {:induction false} AllocKeepsRequest(h: Host, lim: Limits, answers: seq<Answer>, k: nat, i: nat, t: nat)
    requires h.WellShaped() && k <= TYPE_BUS * |h.bridges| && i < |h.bridges| && t < TYPE_MAX
    ensures KeepsRequest(h.Node(i, t), AllocPrefix(h, lim, answers, k).0.Node(i, t))
    decreases k
  {
    hide AllocNode, AllocPrefix, AnswerAt, Host.Node, Host.WellShaped;
    if k == 0 {
      AllocPrefixZero(h, lim, answers);
    } else {
      AllocKeepsRequest(h, lim, answers, k - 1, i, t);
      var j, u := AllocPrefixStep(h, lim, answers, k);
      var p := AllocPrefix(h, lim, answers, k - 1);
      AllocNodeKeepsRequest(p.0, lim, p.1, j, u, AnswerAt(answers, k - 1), i, t);
    }
  }

  lemma {:induction false} FreeKeepsRequest(h: Host, answers: seq<Answer>, k: nat, i: nat, t: nat)
    requires h.WellShaped() && k <= TYPE_BUS * |h.bridges| && i < |h.bridges| && t < TYPE_MAX
    ensures KeepsRequest(h.Node(i, t), FreePrefix(h, answers, k).0.Node(i, t))
    decreases k
  {
    hide FreeNode, FreePrefix, AnswerAt, Host.Node, Host.WellShaped;
    if k == 0 {
      FreePrefixZero(h, answers);
    } else {
      FreeKeepsRequest(h, answers, k - 1, i, t);
      var j, u := FreePrefixStep(h, answers, k);
      var p := FreePrefix(h, answers, k - 1);
      FreeNodeKeepsRequest(p.0, p.1, j, u, AnswerAt(answers, k - 1), i, t);
    }
  }

  /** The call is no submission for this handle. */
  predicate SubmitsElsewhere(e: Event, handle: int) {
    e.SubmitEvent? ==> e.handle != handle
  }

  lemma StepKeepsRequest(h: Host, lim: Limits, e: Event, i: nat, t: nat)
    requires h.WellShaped() && e.Callable() && i < |h.bridges| && t < TYPE_MAX && SubmitsElsewhere(e, h.bridges[i].handle)
    ensures |Step(h, lim, e).0.bridges| == |h.bridges|
    ensures KeepsRequest(h.Node(i, t), Step(h, lim, e).0.Node(i, t))
  {
    hide AllocPrefix, FreePrefix, SubmitPrefix, Scannable, RecordCount;
    if e.SubmitEvent? {
      if e.config.Some? {
        RecordsAreWhole(e.config.value, 0);
      }
    } else if e.phase.AllocateResources? {
      AllocKeepsRequest(h, lim, e.answers, TYPE_BUS * |h.bridges|, i, t);
    } else if e.phase.FreeResources? {
      FreeKeepsRequest(h, e.answers, TYPE_BUS * |h.bridges|, i, t);
    }
  }

  lemma RunOfOneMore(h: Host, lim: Limits, es: seq<Event>, e: Event)
    requires h.WellShaped() && (forall f :: f in es ==> f.Callable()) && e.Callable()
    ensures forall f :: f in es + [e] ==> f.Callable()
    ensures Run(h, lim, es + [e]) == Step(Run(h, lim, es), lim, e).0
  {
    hide Step;
    assert (es + [e])[..|es|] == es;
  }

  /** A run keeps the bridges and their handles. */
  lemma {:induction false} RunKeepsHandles(h: Host, lim: Limits, es: seq<Event>)
    requires h.WellShaped() && forall f :: f in es ==> f.Callable()
    ensures SameFrame(h, Run(h, lim, es))
    decreases |es|
  {
    hide Step, SameFrame;
    if es == [] {
      SameFrameSelf(h);
    } else {
      var n := |es| - 1;
      RunKeepsHandles(h, lim, es[..n]);
      StepFrame(Run(h, lim, es[..n]), lim, es[n]);
      SameFrameTrans(h, Run(h, lim, es[..n]), Run(h, lim, es));
    }
  }

  lemma StepFrame(h: Host, lim: Limits, e: Event)
    requires h.WellShaped() && e.Callable()
    ensures SameFrame(h, Step(h, lim, e).0)
  {
    hide SameFrame, Notify, Submit;
    match e
    case NotifyEvent(phase, answers) => NotifyFrame(h, lim, phase, answers);
    case SubmitEvent(handle, config) => SubmitFrame(h, handle, config);
  }

  /** Calls that are no submission for the bridge keep its request. */
  lemma {:induction false} RunKeepsRequest(h: Host, lim: Limits, es: seq<Event>, i: nat, t: nat)
    requires h.WellShaped() && i < |h.bridges| && t < TYPE_MAX
    requires forall f :: f in es ==> f.Callable() && SubmitsElsewhere(f, h.bridges[i].handle)
    ensures |Run(h, lim, es).bridges| == |h.bridges|
    ensures KeepsRequest(h.Node(i, t), Run(h, lim, es).Node(i, t))
    decreases |es|
  {
    hide Step, SameFrame, Host.Node;
    if es != [] {
      var n := |es| - 1;
      RunKeepsRequest(h, lim, es[..n], i, t);
      RunKeepsHandles(h, lim, es[..n]);
      SameHandles(h, Run(h, lim, es[..n]), i);
      StepKeepsRequest(Run(h, lim, es[..n]), lim, es[n], i, t);
    }
  }

  lemma SameHandles(h: Host, h': Host, i: nat)
    requires SameFrame(h, h') && i < |h.bridges|
    ensures |h'.bridges| == |h.bridges| && h'.bridges[i].handle == h.bridges[i].handle && h'.bridges[i].attrib == h.bridges[i].attrib
  {
  }

  lemma {:induction false} RunInTwo(h: Host, lim: Limits, a: seq<Event>, b: seq<Event>)
    requires h.WellShaped() && (forall f :: f in a ==> f.Callable()) && forall f :: f in b ==> f.Callable()
    ensures forall f :: f in a + b ==> f.Callable()
    ensures Run(h, lim, a + b) == Run(Run(h, lim, a), lim, b)
    decreases |b|
  {
    hide Step;
    if b == [] {
      assert a + b == a;
    } else {
      var n := |b| - 1;
      RunInTwo(h, lim, a, b[..n]);
      assert (a + b)[..|a| + n] == a + b[..n];
    }
  }

  /** In any run, between a submission for a bridge and the next one for it: an allocated window of the
      bridge is the one the submission's last accepted record of the type asked for.  Its base is a multiple
      of the alignment mask plus one, for I/O if the mask is at most 0x7FFF, and its length is the record's,
      or zero where a later AllocateResources failed. */
  lemma WindowIsAsSubmitted(h: Host, lim: Limits, before: seq<Event>, handle: int, config: Option<seq<u8>>, after: seq<Event>,
                            i: nat, k: nat, t: nat)
    requires Initial(h) && (forall f :: f in before ==> f.Callable()) && t <= 1
    requires forall f :: f in after ==> f.Callable() && SubmitsElsewhere(f, handle)
    requires config.Some? && Scannable(config.value, 0) && config.value[RECORD_SIZE * Records(config)] == END_TAG
    requires Addresses(h, handle, i) && LastAsking(h.bridges[i].attrib, config.value, Records(config), k, t)
    ensures forall f :: f in before + [SubmitEvent(handle, config)] + after ==> f.Callable()
    ensures var h' := Run(h, lim, before + [SubmitEvent(handle, config)] + after);
            var d := Decode(config.value, RECORD_SIZE * k);
            && |h'.bridges| == |h.bridges|
            && var n := h'.Node(i, t);
            && n.alignment == d.rangeMax && n.length in {d.addrLen as nat, 0}
            && (n.status == ResAllocated && (t == 1 || d.rangeMax <= 0x7FFF) ==> n.base % (d.rangeMax + 1) == 0)
  {
    hide Run, Initial, Step, Decode, LastAsking, SameFrame, Scannable, Submit, Host.Node;
    InitialShape(h);
    var e := SubmitEvent(handle, config);
    var h1 := Run(h, lim, before);
    RunKeepsHandles(h, lim, before);
    AddressedLater(h, h1, handle, i);
    RunOfOneMore(h, lim, before, e);
    StepIsSubmit(h1, lim, handle, config);
    SubmittedNodes(h1, handle, config, i, t);
    var h2 := Run(h, lim, before + [e]);
    RunKeepsHandles(h, lim, before + [e]);
    SameHandles(h, h2, i);
    RunKeepsRequest(h2, lim, after, i, t);
    RunInTwo(h, lim, before + [e], after);
    AllocatedBaseIsAligned(h, lim, before + [e] + after, i, t);
  }

  lemma AddressedLater(h: Host, h': Host, handle: int, i: nat)
    requires Addresses(h, handle, i) && SameFrame(h, h')
    ensures Addresses(h', handle, i) && h'.bridges[i].attrib == h.bridges[i].attrib
  {
  }

  lemma StepIsSubmit(h: Host, lim: Limits, handle: int, config: Option<seq<u8>>)
    requires h.WellShaped() && (config.Some? ==> Scannable(config.value, 0))
    ensures Step(h, lim, SubmitEvent(handle, config)) == Submit(h, handle, config)
  {
  }
}
