/** The PCI host bridge resource allocation protocol as a state machine over values: what every
    NotifyPhase and SubmitResources call makes of the resource nodes, the two flags and the two
    GCD spaces.  Module HostBridge refines it in place; the modules about safety, accounting and
    proposals are about its runs. */
module HostBridgeModel {
  import opened Words
  import opened Efi
  import opened Gcd
  import opened AcpiDescriptor

  const COMBINE_MEM_PMEM: nat := 1
  const RESOURCE_SATISFIED: u64 := 0
  const RESOURCE_LESS: u64 := 0xFFFF_FFFF_FFFF_FFFE
  const RESOURCE_NONEXISTENT: u64 := 0xFFFF_FFFF_FFFF_FFFF

  // Indices into ResAllocNode.
  const TYPE_IO: nat := 0
  const TYPE_MEM32: nat := 1
  const TYPE_PMEM32: nat := 2
  const TYPE_MEM64: nat := 3
  const TYPE_PMEM64: nat := 4
  const TYPE_BUS: nat := 5
  const TYPE_MAX: nat := 6

  datatype ResStatus = ResNone | ResSubmitted | ResRequested | ResAllocated

  datatype ResNode = ResNode(base: nat, length: nat, alignment: nat, status: ResStatus)

  datatype Bridge = Bridge(handle: int, attrib: nat, nodes: seq<ResNode>)

  /** The I/O and MMIO upper limits from mResAperture[0][0]. */
  datatype Limits = Limits(io: int, mem: int)

  datatype Host = Host(bridges: seq<Bridge>, submitted: bool, canRestart: bool, io: GcdSpace, mem: GcdSpace)
  {
    predicate WellShaped() {
      forall i :: 0 <= i < |bridges| ==> |bridges[i].nodes| == TYPE_MAX
    }

    function Node(i: nat, idx: nat): ResNode
      requires WellShaped() && i < |bridges| && idx < TYPE_MAX
    {
      bridges[i].nodes[idx]
    }

    function WithNode(i: nat, idx: nat, n: ResNode): (h: Host)
      requires WellShaped() && i < |bridges| && idx < TYPE_MAX
      ensures h.WellShaped()
    {
      this.(bridges := bridges[i := bridges[i].(nodes := bridges[i].nodes[idx := n])])
    }

    function Space(idx: nat): GcdSpace {
      if idx == TYPE_IO then io else mem
    }

    function WithSpace(idx: nat, s: GcdSpace): Host {
      if idx == TYPE_IO then this.(io := s) else this.(mem := s)
    }
  }

  datatype Phase =
    | BeginEnumeration | EndEnumeration | BeginBusAllocation | EndBusAllocation
    | BeginResourceAllocation | AllocateResources | SetResources | FreeResources
    | EndResourceAllocation | UnknownPhase

  // ----- phases

  function Cleared(n: ResNode): ResNode {
    n.(base := 0, length := 0, status := ResNone)
  }

  function ClearedNodes(nodes: seq<ResNode>): (r: seq<ResNode>)
    ensures |r| == |nodes|
  {
    seq(|nodes|, k requires 0 <= k < |nodes| => Cleared(nodes[k]))
  }

  function BeginEnumerationSpec(h: Host): Host {
    h.(bridges := seq(|h.bridges|, i requires 0 <= i < |h.bridges| =>
                        h.bridges[i].(nodes := ClearedNodes(h.bridges[i].nodes))),
       submitted := false, canRestart := true)
  }

  /** The number of one-bits of an alignment mask, cleared where the chipset cannot honour it. */
  function AllocBits(idx: nat, alignment: nat): nat {
    var bits := HighBitSet64(alignment) + 1;
    if (idx == TYPE_IO && bits >= 16) || (idx == TYPE_MEM32 && bits >= 32) then 0 else bits
  }

  function Limit(lim: Limits, idx: nat): int {
    if idx == TYPE_IO then lim.io else lim.mem
  }

  /** The GCD answers of one AllocateResources or FreeResources phase, by node visited. */
  function AnswerAt(answers: seq<Answer>, k: nat): Answer {
    if k < |answers| then answers[k] else Refuse(OutOfResources)
  }

  /** AllocateResources at one node; the second result replaces ReturnStatus. */
  function AllocNode(h: Host, lim: Limits, ret: EfiStatus, i: nat, idx: nat, answer: Answer): (r: (Host, EfiStatus))
    requires h.WellShaped() && i < |h.bridges| && idx < TYPE_BUS
    ensures r.0.WellShaped() && |r.0.bridges| == |h.bridges|
  {
    var n := h.Node(i, idx);
    if n.status == ResNone then (h, ret)
    else if idx <= TYPE_MEM32 then
      var (s, st, base) := Allocate(h.Space(idx), AllocBits(idx, n.alignment), n.length, Limit(lim, idx), answer);
      if st.Success? then
        (h.WithSpace(idx, s).WithNode(i, idx, n.(base := base, status := ResAllocated)), ret)
      else if st != OutOfResources then (h.WithNode(i, idx, n.(length := 0)), st)
      else (h, st)
    else (h, Aborted)
  }

  /** State and ReturnStatus once the first k (root bridge, type) pairs have been visited. */
  function AllocPrefix(h: Host, lim: Limits, answers: seq<Answer>, k: nat): (r: (Host, EfiStatus))
    requires h.WellShaped() && k <= TYPE_BUS * |h.bridges|
    ensures r.0.WellShaped() && |r.0.bridges| == |h.bridges|
  {
    if k == 0 then (h, Success)
    else
      var (p, ret) := AllocPrefix(h, lim, answers, k - 1);
      AllocNode(p, lim, ret, (k - 1) / TYPE_BUS, (k - 1) % TYPE_BUS, AnswerAt(answers, k - 1))
  }

  /** FreeResources at one node, which is cleared even when the GCD refuses to free its window. */
  function FreeNode(h: Host, ret: EfiStatus, i: nat, idx: nat, answer: Answer): (r: (Host, EfiStatus))
    requires h.WellShaped() && i < |h.bridges| && idx < TYPE_BUS
    ensures r.0.WellShaped() && |r.0.bridges| == |h.bridges|
  {
    var n := h.Node(i, idx);
    if n.status != ResAllocated then (h, ret)
    else if idx <= TYPE_MEM32 then
      var (s, st) := Free(h.Space(idx), n.base, n.length, answer);
      (h.WithSpace(idx, s).WithNode(i, idx, Cleared(n)), if st.IsError() then st else ret)
    else (h.WithNode(i, idx, Cleared(n)), ret)
  }

  function FreePrefix(h: Host, answers: seq<Answer>, k: nat): (r: (Host, EfiStatus))
    requires h.WellShaped() && k <= TYPE_BUS * |h.bridges|
    ensures r.0.WellShaped() && |r.0.bridges| == |h.bridges|
  {
    if k == 0 then (h, Success)
    else
      var (p, ret) := FreePrefix(h, answers, k - 1);
      FreeNode(p, ret, (k - 1) / TYPE_BUS, (k - 1) % TYPE_BUS, AnswerAt(answers, k - 1))
  }

  lemma AllocPrefixZero(h: Host, lim: Limits, answers: seq<Answer>)
    requires h.WellShaped()
    ensures AllocPrefix(h, lim, answers, 0) == (h, Success)
  {
  }

  lemma FreePrefixZero(h: Host, answers: seq<Answer>)
    requires h.WellShaped()
    ensures FreePrefix(h, answers, 0) == (h, Success)
  {
  }

  /** The k-th visit of a phase is to node t of bridge i, where TYPE_BUS * i + t == k - 1. */
  lemma AllocPrefixStep(h: Host, lim: Limits, answers: seq<Answer>, k: nat) returns (i: nat, t: nat)
    requires h.WellShaped() && 0 < k <= TYPE_BUS * |h.bridges|
    ensures i < |h.bridges| && t < TYPE_BUS && TYPE_BUS * i + t == k - 1
    ensures var p := AllocPrefix(h, lim, answers, k - 1);
            && p.0.WellShaped() && |p.0.bridges| == |h.bridges|
            && AllocPrefix(h, lim, answers, k) == AllocNode(p.0, lim, p.1, i, t, AnswerAt(answers, k - 1))
  {
    hide AllocNode, AnswerAt;
    i, t := (k - 1) / TYPE_BUS, (k - 1) % TYPE_BUS;
  }

  lemma FreePrefixStep(h: Host, answers: seq<Answer>, k: nat) returns (i: nat, t: nat)
    requires h.WellShaped() && 0 < k <= TYPE_BUS * |h.bridges|
    ensures i < |h.bridges| && t < TYPE_BUS && TYPE_BUS * i + t == k - 1
    ensures var p := FreePrefix(h, answers, k - 1);
            && p.0.WellShaped() && |p.0.bridges| == |h.bridges|
            && FreePrefix(h, answers, k) == FreeNode(p.0, p.1, i, t, AnswerAt(answers, k - 1))
  {
    hide FreeNode, AnswerAt;
    i, t := (k - 1) / TYPE_BUS, (k - 1) % TYPE_BUS;
  }

  function Notify(h: Host, lim: Limits, phase: Phase, answers: seq<Answer>): (r: (Host, EfiStatus))
    requires h.WellShaped()
    ensures r.0.WellShaped()
  {
    match phase
    case BeginEnumeration =>
      if h.canRestart then (BeginEnumerationSpec(h), Success) else (h, NotReady)
    case BeginBusAllocation => (h.(canRestart := false), Success)
    case AllocateResources =>
      if h.submitted then AllocPrefix(h, lim, answers, TYPE_BUS * |h.bridges|) else (h, NotReady)
    case FreeResources =>
      var (p, ret) := FreePrefix(h, answers, TYPE_BUS * |h.bridges|);
      (p.(submitted := false, canRestart := true), ret)
    case EndResourceAllocation => (h.(canRestart := false), Success)
    case UnknownPhase => (h, InvalidParameter)
    case _ => (h, Success)
  }

  // ----- SubmitResources

  /** Progress of a submission: ok turns false at the first rejected record. */
  datatype Submission = Submission(ok: bool, nodes: seq<ResNode>, submitted: bool)

  function Requested(n: ResNode, d: Descriptor): ResNode {
    n.(length := d.addrLen, alignment := d.rangeMax, status := ResRequested)
  }

  function SubmitOne(p: Submission, attrib: nat, d: Descriptor): (r: Submission)
    requires |p.nodes| == TYPE_MAX
    ensures |r.nodes| == TYPE_MAX
  {
    if !p.ok then p
    else if d.addrLen == 0 then p.(submitted := true)
    else if d.addrLen > 0xffff_ffff then p.(ok := false)
    else if d.rangeMax >= 0xffff_ffff || d.rangeMax != GetPowerOfTwo64(d.rangeMax + 1) - 1 then p.(ok := false)
    else if d.resType == 0 then
      if d.granularity != 32 then p.(ok := false)
      else if attrib == COMBINE_MEM_PMEM && d.specificFlag == 6 then p.(ok := false)
      else if d.specificFlag == 6 then
        p.(nodes := p.nodes[TYPE_PMEM32 := p.nodes[TYPE_PMEM32].(status := ResSubmitted)])
      else p.(nodes := p.nodes[TYPE_MEM32 := Requested(p.nodes[TYPE_MEM32], d)], submitted := true)
    else if d.resType == 1 then
      p.(nodes := p.nodes[TYPE_IO := Requested(p.nodes[TYPE_IO], d)], submitted := true)
    else p
  }

  function SubmitPrefix(p: Submission, attrib: nat, s: seq<u8>, k: nat): (r: Submission)
    requires |p.nodes| == TYPE_MAX && RECORD_SIZE * k <= |s|
    ensures |r.nodes| == TYPE_MAX
  {
    if k == 0 then p
    else SubmitOne(SubmitPrefix(p, attrib, s, k - 1), attrib, Decode(s, RECORD_SIZE * (k - 1)))
  }

  /** Position of the first root bridge with this handle, or the number of bridges. */
  function FindBridge(bridges: seq<Bridge>, handle: int): (i: nat)
    ensures i <= |bridges|
    ensures i < |bridges| ==> bridges[i].handle == handle
    ensures forall j :: 0 <= j < i ==> bridges[j].handle != handle
  {
    if bridges == [] || bridges[0].handle == handle then 0 else 1 + FindBridge(bridges[1..], handle)
  }

  function Submit(h: Host, handle: int, config: Option<seq<u8>>): (r: (Host, EfiStatus))
    requires h.WellShaped()
    requires config.Some? ==> Scannable(config.value, 0)
    ensures r.0.WellShaped()
  {
    if config.None? then (h, InvalidParameter)
    else
      var n := RecordCount(config.value, 0);
      RecordsAreWhole(config.value, 0);
      if config.value[RECORD_SIZE * n] != END_TAG then (h, InvalidParameter)
      else
        var i := FindBridge(h.bridges, handle);
        if i == |h.bridges| then (h, InvalidParameter)
        else
          var b := h.bridges[i];
          var p := SubmitPrefix(Submission(true, b.nodes, h.submitted), b.attrib, config.value, n);
          (h.(bridges := h.bridges[i := b.(nodes := p.nodes)], submitted := p.submitted),
           if p.ok then Success else InvalidParameter)
  }

  // ----- GetProposedResources

  function Describe(idx: nat, n: ResNode): Descriptor
    requires idx < TYPE_BUS && (idx <= TYPE_MEM32 ==> n.base < TWO64 && n.length < TWO64)
  {
    var offset := if n.status == ResAllocated then RESOURCE_SATISFIED else RESOURCE_LESS;
    if idx == TYPE_IO then Descriptor(1, 0, 0, 0, n.base, 0, offset, n.length)
    else if idx == TYPE_MEM32 then Descriptor(0, 0, 0, 32, n.base, 0, offset, n.length)
    else if idx == TYPE_PMEM32 then Descriptor(0, 0, 6, 32, 0, 0, RESOURCE_NONEXISTENT, 0)
    else if idx == TYPE_MEM64 then Descriptor(0, 0, 0, 64, 0, 0, RESOURCE_NONEXISTENT, 0)
    else Descriptor(0, 0, 6, 64, 0, 0, RESOURCE_NONEXISTENT, 0)
  }

  /** The I/O and Mem32 fields fit the QWORDs they are printed into. */
  predicate Words64(nodes: seq<ResNode>)
    requires |nodes| == TYPE_MAX
  {
    forall k :: 0 <= k <= TYPE_MEM32 ==> nodes[k].base < TWO64 && nodes[k].length < TWO64
  }

  /** Descriptors for the first k node types. */
  function Proposed(nodes: seq<ResNode>, k: nat): seq<Descriptor>
    requires |nodes| == TYPE_MAX && k <= TYPE_BUS && Words64(nodes)
  {
    if k == 0 then []
    else Proposed(nodes, k - 1) + (if nodes[k - 1].status == ResNone then [] else [Describe(k - 1, nodes[k - 1])])
  }

  lemma ProposedStep(nodes: seq<ResNode>, t: nat)
    requires |nodes| == TYPE_MAX && 0 < t <= TYPE_BUS && Words64(nodes)
    ensures Proposed(nodes, t)
         == Proposed(nodes, t - 1) + (if nodes[t - 1].status == ResNone then [] else [Describe(t - 1, nodes[t - 1])])
  {
  }

  function Print(ds: seq<Descriptor>): (s: seq<u8>)
    ensures |s| == RECORD_SIZE * |ds|
  {
    if ds == [] then [] else Print(ds[..|ds| - 1]) + Encode(ds[|ds| - 1])
  }

  function ProposedStream(nodes: seq<ResNode>): seq<u8>
    requires |nodes| == TYPE_MAX && Words64(nodes)
  {
    Print(Proposed(nodes, TYPE_BUS)) + [END_TAG, 0]
  }

  // ----- runs

  datatype Event =
    | NotifyEvent(phase: Phase, answers: seq<Answer>)
    | SubmitEvent(handle: int, config: Option<seq<u8>>)
  {
    predicate Callable() {
      SubmitEvent? && config.Some? ==> Scannable(config.value, 0)
    }
  }

  function Step(h: Host, lim: Limits, e: Event): (r: (Host, EfiStatus))
    requires h.WellShaped() && e.Callable()
    ensures r.0.WellShaped()
  {
    match e
    case NotifyEvent(phase, answers) => Notify(h, lim, phase, answers)
    case SubmitEvent(handle, config) => Submit(h, handle, config)
  }

  /** The state after a sequence of protocol calls. */
  function Run(h: Host, lim: Limits, es: seq<Event>): (r: Host)
    requires h.WellShaped() && forall e :: e in es ==> e.Callable()
    ensures r.WellShaped()
  {
    if es == [] then h else Step(Run(h, lim, es[..|es| - 1]), lim, es[|es| - 1]).0
  }
}
