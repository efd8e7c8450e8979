/** The driver itself: root bridge objects whose resource nodes are updated in place by the
    phase handler and by SubmitResources, and the proposal written through a moving pointer.
    Each method is proved against the state machine of HostBridgeModel: what a method leaves in
    the objects is what the machine's step makes of their abstract value. */
module HostBridge {
  import opened Words
  import opened Efi
  import opened Gcd
  import opened AcpiDescriptor
  import opened HostBridgeModel

  class RootBridge {
    const handle: int
    const attrib: nat
    var nodes: seq<ResNode>

    /** RootBridgeConstructor on zeroed pool memory. */
    constructor (handle: int, attrib: nat)
      ensures this.handle == handle && this.attrib == attrib
      ensures nodes == seq(TYPE_MAX, _ => ResNode(0, 0, 0, ResNone))
    {
      this.handle, this.attrib := handle, attrib;
      nodes := seq(TYPE_MAX, _ => ResNode(0, 0, 0, ResNone));
    }
  }

  class HostBridgeInstance {
    const bridges: seq<RootBridge>
    const lim: Limits
    var submitted: bool
    var canRestart: bool
    var io: GcdSpace
    var mem: GcdSpace

    ghost predicate Valid()
      reads this, bridges
    {
      && (forall i :: 0 <= i < |bridges| ==> |bridges[i].nodes| == TYPE_MAX)
      && (forall i, j :: 0 <= i < j < |bridges| ==> bridges[i] != bridges[j])
    }

    ghost function Abs(): (h: Host)
      reads this, bridges
      requires Valid()
      ensures h.WellShaped() && |h.bridges| == |bridges|
    {
      Host(seq(|bridges|, i requires 0 <= i < |bridges| reads bridges =>
                 Bridge(bridges[i].handle, bridges[i].attrib, bridges[i].nodes)),
           submitted, canRestart, io, mem)
    }

    /** One host bridge over freshly constructed root bridges, with the I/O and MMIO space
        already added to the GCD. */
    constructor (bridges: seq<RootBridge>, lim: Limits, io: GcdSpace, mem: GcdSpace)
      requires forall i :: 0 <= i < |bridges| ==> |bridges[i].nodes| == TYPE_MAX
      requires forall i, j :: 0 <= i < j < |bridges| ==> bridges[i] != bridges[j]
      ensures Valid() && this.bridges == bridges && this.lim == lim
      ensures !submitted && canRestart && this.io == io && this.mem == mem
    {
      this.bridges, this.lim := bridges, lim;
      submitted, canRestart := false, true;
      this.io, this.mem := io, mem;
    }

    /** Storing one node changes the abstract state at that node only. */
    method SetNode(i: nat, idx: nat, n: ResNode)
      requires Valid() && i < |bridges| && idx < TYPE_MAX
      modifies bridges[i]
      ensures Valid() && Abs() == old(Abs()).WithNode(i, idx, n)
      ensures bridges[i].nodes == old(bridges[i].nodes)[idx := n]
      ensures submitted == old(submitted) && canRestart == old(canRestart) && io == old(io) && mem == old(mem)
    {
      ghost var h := Abs();
      bridges[i].nodes := bridges[i].nodes[idx := n];
      assert Abs().bridges == h.WithNode(i, idx, n).bridges;
    }

    /** A granted allocation: the space as the core leaves it, and the node with its base. */
    method GrantNode(i: nat, idx: nat, s: GcdSpace, n: ResNode)
      requires Valid() && i < |bridges| && idx <= TYPE_MEM32
      modifies this`io, this`mem, bridges[i]
      ensures Valid() && Abs() == old(Abs()).WithSpace(idx, s).WithNode(i, idx, n)
    {
      ghost var h := Abs();
      if idx == TYPE_IO {
        io := s;
      } else {
        mem := s;
      }
      assert Abs().bridges == h.bridges;
      SetNode(i, idx, n);
    }

    lemma NodeOfAbs(i: nat, idx: nat)
      requires Valid() && i < |bridges| && idx < TYPE_MAX
      ensures Abs().Node(i, idx) == bridges[i].nodes[idx]
      ensures Abs().io == io && Abs().mem == mem
    {
    }

    /** The inner loop of the reset, on one root bridge. */
    method ClearNodes(rb: RootBridge)
      requires |rb.nodes| == TYPE_MAX
      modifies rb
      ensures rb.nodes == ClearedNodes(old(rb.nodes))
    {
      ghost var before := rb.nodes;
      for index := 0 to TYPE_MAX
        invariant |rb.nodes| == TYPE_MAX
        invariant forall k :: 0 <= k < index ==> rb.nodes[k] == Cleared(before[k])
        invariant forall k :: index <= k < TYPE_MAX ==> rb.nodes[k] == before[k]
      {
        rb.nodes := rb.nodes[index := Cleared(rb.nodes[index])];
      }
      assert rb.nodes == ClearedNodes(before);
    }

    method BeginEnumerationPhase()
      requires Valid()
      modifies this, bridges
      ensures Valid() && Abs() == BeginEnumerationSpec(old(Abs()))
    {
      ghost var h := Abs();
      for i := 0 to |bridges|
        invariant Valid() && Abs().(bridges := h.bridges) == h
        invariant forall j :: 0 <= j < i ==> bridges[j].nodes == ClearedNodes(h.bridges[j].nodes)
        invariant forall j :: i <= j < |bridges| ==> bridges[j].nodes == h.bridges[j].nodes
      {
        ClearNodes(bridges[i]);
      }
      submitted, canRestart := false, true;
      assert Abs().bridges == BeginEnumerationSpec(h).bridges;
    }

    /** One requested I/O or Mem32 node: the two cases of the switch differ in the GCD service, the
        limit and the clamp on the alignment. */
    method AllocateWindow(i: nat, index: nat, space: GcdSpace, bitsOfAlignment: nat, limit: int, answer: Answer, ret: EfiStatus)
      returns (returnStatus: EfiStatus)
      requires Valid() && i < |bridges| && index <= TYPE_MEM32 && bridges[i].nodes[index].status != ResNone
      requires space == Abs().Space(index) && limit == Limit(lim, index)
      requires bitsOfAlignment == AllocBits(index, bridges[i].nodes[index].alignment)
      modifies this`io, this`mem, bridges[i]
      ensures Valid() && (Abs(), returnStatus) == AllocNode(old(Abs()), lim, ret, i, index, answer)
    {
      NodeOfAbs(i, index);
      hide Allocate, AllocBits, Abs, Host.WithNode, Host.WithSpace, Host.Node, Host.Space, Limit;
      returnStatus := ret;
      var node := bridges[i].nodes[index];
      var (newSpace, status, base) := Allocate(space, bitsOfAlignment, node.length, limit, answer);
      if !status.IsError() {
        GrantNode(i, index, newSpace, node.(base := base, status := ResAllocated));
      } else {
        returnStatus := status;
        if status != OutOfResources {
          SetNode(i, index, node.(length := 0));
        }
      }
    }

    /** The body of the AllocateResources loops at one node. */
    method AllocateNode(i: nat, index: nat, answer: Answer, ret: EfiStatus) returns (returnStatus: EfiStatus)
      requires Valid() && i < |bridges| && index < TYPE_BUS
      modifies this`io, this`mem, bridges[i]
      ensures Valid() && (Abs(), returnStatus) == AllocNode(old(Abs()), lim, ret, i, index, answer)
    {
      NodeOfAbs(i, index);
      hide Allocate, HighBitSet64, Abs, Host.WithNode, Host.WithSpace, Host.Node;
      returnStatus := ret;
      var node := bridges[i].nodes[index];
      if node.status != ResNone {
        var bitsOfAlignment := HighBitSet64(node.alignment) + 1;
        if index == TYPE_IO {
          if bitsOfAlignment >= 16 {
            bitsOfAlignment := 0;
          }
          returnStatus := AllocateWindow(i, index, io, bitsOfAlignment, lim.io, answer, ret);
        } else if index == TYPE_MEM32 {
          if bitsOfAlignment >= 32 {
            bitsOfAlignment := 0;
          }
          returnStatus := AllocateWindow(i, index, mem, bitsOfAlignment, lim.mem, answer, ret);
        } else {
          returnStatus := Aborted;
        }
      }
    }

    method AllocateResourcesPhase(answers: seq<Answer>) returns (returnStatus: EfiStatus)
      requires Valid()
      modifies this`io, this`mem, bridges
      ensures Valid()
      ensures (Abs(), returnStatus) == AllocPrefix(old(Abs()), lim, answers, TYPE_BUS * |bridges|)
    {
      hide AllocNode;
      ghost var h := Abs();
      returnStatus := Success;
      for i := 0 to |bridges|
        invariant Valid() && (Abs(), returnStatus) == AllocPrefix(h, lim, answers, TYPE_BUS * i)
      {
        for index := 0 to TYPE_BUS
          invariant Valid() && (Abs(), returnStatus) == AllocPrefix(h, lim, answers, TYPE_BUS * i + index)
        {
          var k := TYPE_BUS * i + index;
          assert (k + 1 - 1) / TYPE_BUS == i && (k + 1 - 1) % TYPE_BUS == index;
          returnStatus := AllocateNode(i, index, AnswerAt(answers, k), returnStatus);
        }
      }
    }

    /** The body of the FreeResources loops at one node. */
    method ReleaseNode(i: nat, index: nat, answer: Answer, ret: EfiStatus) returns (returnStatus: EfiStatus)
      requires Valid() && i < |bridges| && index < TYPE_BUS
      modifies this`io, this`mem, bridges[i]
      ensures Valid() && (Abs(), returnStatus) == FreeNode(old(Abs()), ret, i, index, answer)
    {
      hide Free;
      ghost var h := Abs();
      returnStatus := ret;
      var node := bridges[i].nodes[index];
      if node.status == ResAllocated {
        if index == TYPE_IO {
          var (space, status) := Free(io, node.base, node.length, answer);
          io := space;
          assert Abs().bridges == h.bridges;
          if status.IsError() {
            returnStatus := status;
          }
        } else if index == TYPE_MEM32 {
          var (space, status) := Free(mem, node.base, node.length, answer);
          mem := space;
          assert Abs().bridges == h.bridges;
          if status.IsError() {
            returnStatus := status;
          }
        }
        SetNode(i, index, Cleared(node));
      }
    }

    method FreeResourcesPhase(answers: seq<Answer>) returns (returnStatus: EfiStatus)
      requires Valid()
      modifies this, bridges
      ensures Valid() && (Abs(), returnStatus) == Notify(old(Abs()), lim, FreeResources, answers)
    {
      hide FreeNode;
      ghost var h := Abs();
      returnStatus := Success;
      for i := 0 to |bridges|
        invariant Valid() && (Abs(), returnStatus) == FreePrefix(h, answers, TYPE_BUS * i)
      {
        for index := 0 to TYPE_BUS
          invariant Valid() && (Abs(), returnStatus) == FreePrefix(h, answers, TYPE_BUS * i + index)
        {
          var k := TYPE_BUS * i + index;
          assert (k + 1 - 1) / TYPE_BUS == i && (k + 1 - 1) % TYPE_BUS == index;
          returnStatus := ReleaseNode(i, index, AnswerAt(answers, k), returnStatus);
        }
      }
      ghost var p := Abs();
      submitted, canRestart := false, true;
      assert Abs().bridges == p.bridges;
    }

    /** NotifyPhase: `answers` are the GCD's replies, node by node, should this phase allocate or free. */
    method NotifyPhase(phase: Phase, answers: seq<Answer>) returns (status: EfiStatus)
      requires Valid()
      modifies this, bridges
      ensures Valid() && (Abs(), status) == Notify(old(Abs()), lim, phase, answers)
    {
      ghost var h := Abs();
      match phase {
        case BeginEnumeration =>
          if canRestart {
            BeginEnumerationPhase();
          } else {
            return NotReady;
          }
        case BeginBusAllocation =>
          canRestart := false;
          assert Abs().bridges == h.bridges;
        case AllocateResources =>
          if submitted {
            status := AllocateResourcesPhase(answers);
            return;
          } else {
            return NotReady;
          }
        case FreeResources =>
          status := FreeResourcesPhase(answers);
          return;
        case EndResourceAllocation =>
          canRestart := false;
          assert Abs().bridges == h.bridges;
        case UnknownPhase =>
          return InvalidParameter;
        case _ =>
      }
      return Success;
    }

    /** SubmitResources; None stands for a NULL Configuration. */
    method SubmitResources(rootBridgeHandle: int, configuration: Option<seq<u8>>) returns (status: EfiStatus)
      requires Valid()
      requires configuration.Some? ==> Scannable(configuration.value, 0)
      modifies this, bridges
      ensures Valid() && (Abs(), status) == Submit(old(Abs()), rootBridgeHandle, configuration)
    {
      if configuration.None? {
        return InvalidParameter;
      }
      var s := configuration.value;
      RecordsAreWhole(s, 0);
      var temp := 0;
      while s[temp] == ADDRESS_SPACE
        invariant Scannable(s, temp)
        invariant temp + RECORD_SIZE * RecordCount(s, temp) == RECORD_SIZE * RecordCount(s, 0)
        decreases |s| - temp
      {
        temp := temp + RECORD_SIZE;
      }
      if s[temp] != END_TAG {
        return InvalidParameter;
      }
      ghost var h := Abs();
      var i := 0;
      while i < |bridges| && bridges[i].handle != rootBridgeHandle
        invariant i <= |bridges| && forall j :: 0 <= j < i ==> h.bridges[j].handle != rootBridgeHandle
      {
        i := i + 1;
      }
      FirstMatch(h.bridges, rootBridgeHandle, i);
      if i == |bridges| {
        return InvalidParameter;
      }
      status := SubmitRecords(i, s);
    }

    /** The record loop, on the root bridge that was found. */
    method SubmitRecords(i: nat, s: seq<u8>) returns (status: EfiStatus)
      requires Valid() && i < |bridges| && Scannable(s, 0)
      requires RECORD_SIZE * RecordCount(s, 0) <= |s|
      modifies this`submitted, bridges[i]
      ensures Valid()
      ensures var h, b := old(Abs()), old(Abs()).bridges[i];
              var p := SubmitPrefix(Submission(true, b.nodes, h.submitted), b.attrib, s, RecordCount(s, 0));
              && Abs() == h.(bridges := h.bridges[i := b.(nodes := p.nodes)], submitted := p.submitted)
              && status == (if p.ok then Success else InvalidParameter)
    {
      hide Decode, SubmitOne, Encode;
      ghost var h := Abs();
      ghost var p0 := Submission(true, bridges[i].nodes, submitted);
      var rb, temp := bridges[i], 0;
      ghost var k := 0;
      while s[temp] == ADDRESS_SPACE
        invariant temp == RECORD_SIZE * k && Scannable(s, temp) && k + RecordCount(s, temp) == RecordCount(s, 0)
        invariant Valid() && rb == bridges[i]
        invariant SubmitPrefix(p0, rb.attrib, s, k) == Submission(true, rb.nodes, submitted)
        decreases |s| - temp
      {
        var ok := SubmitRecord(i, Decode(s, temp));
        k, temp := k + 1, temp + RECORD_SIZE;
        if !ok {
          RejectedStaysRejected(p0, rb.attrib, s, k, RecordCount(s, 0));
          assert Abs().bridges == h.bridges[i := h.bridges[i].(nodes := rb.nodes)];
          return InvalidParameter;
        }
      }
      assert Abs().bridges == h.bridges[i := h.bridges[i].(nodes := rb.nodes)];
      return Success;
    }

    /** One record of the loop in SubmitResources; false where the C code returns an error. */
    method SubmitRecord(i: nat, ptr: Descriptor) returns (ok: bool)
      requires Valid() && i < |bridges|
      modifies this`submitted, bridges[i]
      ensures Valid()
      ensures Submission(ok, bridges[i].nodes, submitted)
           == SubmitOne(Submission(true, old(bridges[i].nodes), old(submitted)), bridges[i].attrib, ptr)
    {
      var rb := bridges[i];
      if ptr.addrLen == 0 {
        submitted := true;
        return true;
      }
      if ptr.addrLen > 0xffff_ffff {
        return false;
      }
      if ptr.rangeMax >= 0xffff_ffff || ptr.rangeMax != GetPowerOfTwo64(ptr.rangeMax + 1) - 1 {
        return false;
      }
      if ptr.resType == 0 {
        if ptr.granularity != 32 {
          return false;
        }
        if rb.attrib == COMBINE_MEM_PMEM && ptr.specificFlag == 6 {
          return false;
        }
        if ptr.specificFlag == 6 {
          SetNode(i, TYPE_PMEM32, rb.nodes[TYPE_PMEM32].(status := ResSubmitted));
        } else {
          SetNode(i, TYPE_MEM32, Requested(rb.nodes[TYPE_MEM32], ptr));
          submitted := true;
        }
      } else if ptr.resType == 1 {
        SetNode(i, TYPE_IO, Requested(rb.nodes[TYPE_IO], ptr));
        submitted := true;
      }
      return true;
    }

    /** GetProposedResources; poolOk says whether AllocateZeroPool found memory. */
    method GetProposedResources(rootBridgeHandle: int, poolOk: bool) returns (status: EfiStatus, configuration: array?<u8>)
      requires Valid()
      requires forall i :: 0 <= i < |bridges| ==> Words64(bridges[i].nodes)
      ensures configuration != null ==> fresh(configuration)
      ensures var i := FindBridge(Abs().bridges, rootBridgeHandle);
              if i == |bridges| then status == InvalidParameter && configuration == null
              else if !poolOk then status == OutOfResources && configuration == null
              else status == Success && configuration != null
                   && configuration[..] == ProposedStream(bridges[i].nodes)
    {
      ghost var h := Abs();
      configuration := null;
      var i := 0;
      while i < |bridges| && bridges[i].handle != rootBridgeHandle
        invariant i <= |bridges| && forall j :: 0 <= j < i ==> h.bridges[j].handle != rootBridgeHandle
      {
        i := i + 1;
      }
      FirstMatch(h.bridges, rootBridgeHandle, i);
      if i == |bridges| {
        return InvalidParameter, null;
      }
      if !poolOk {
        return OutOfResources, null;
      }
      configuration := WriteProposal(bridges[i].nodes);
      status := Success;
    }
  }

  lemma {:induction false} FirstMatch(bridges: seq<Bridge>, handle: int, i: nat)
    requires i <= |bridges| && forall j :: 0 <= j < i ==> bridges[j].handle != handle
    requires i < |bridges| ==> bridges[i].handle == handle
    ensures FindBridge(bridges, handle) == i
  {
  }

  lemma {:induction false} RejectedStaysRejected(p: Submission, attrib: nat, s: seq<u8>, k: nat, n: nat)
    requires |p.nodes| == TYPE_MAX && k <= n && RECORD_SIZE * n <= |s|
    requires !SubmitPrefix(p, attrib, s, k).ok
    ensures SubmitPrefix(p, attrib, s, n) == SubmitPrefix(p, attrib, s, k)
    decreases n
  {
    hide Decode, SubmitOne;
    if k < n {
      RejectedStaysRejected(p, attrib, s, k, n - 1);
      RejectedIgnores(SubmitPrefix(p, attrib, s, n - 1), attrib, Decode(s, RECORD_SIZE * (n - 1)));
    }
  }

  lemma RejectedIgnores(p: Submission, attrib: nat, d: Descriptor)
    requires |p.nodes| == TYPE_MAX && !p.ok
    ensures SubmitOne(p, attrib, d) == p
  {
  }

  /** Stores one descriptor at temp and nothing else. */
  method WriteRecord(buffer: array<u8>, temp: nat, d: Descriptor)
    requires temp + RECORD_SIZE <= buffer.Length
    modifies buffer
    ensures buffer[..temp] == old(buffer[..temp])
    ensures buffer[temp..temp + RECORD_SIZE] == Encode(d)
    ensures buffer[temp + RECORD_SIZE..] == old(buffer[temp + RECORD_SIZE..])
  {
    hide Encode;
    var e := Encode(d);
    forall k | 0 <= k < RECORD_SIZE {
      buffer[temp + k] := e[k];
    }
  }

  /** The first loop of GetProposedResources. */
  method CountActive(nodes: seq<ResNode>) returns (number: nat)
    requires |nodes| == TYPE_MAX && Words64(nodes)
    ensures number == |Proposed(nodes, TYPE_BUS)|
  {
    hide Describe;
    number := 0;
    for index := 0 to TYPE_BUS
      invariant number == |Proposed(nodes, index)|
    {
      if nodes[index].status != ResNone {
        number := number + 1;
      }
    }
  }

  /** One round of the fill loop: appends the node's record, if it has one, at temp0. */
  method WriteNode(buffer: array<u8>, nodes: seq<ResNode>, index: nat, temp0: nat) returns (temp: nat)
    requires |nodes| == TYPE_MAX && Words64(nodes) && index < TYPE_BUS
    requires temp0 == RECORD_SIZE * |Proposed(nodes, index)|
    requires RECORD_SIZE * |Proposed(nodes, index + 1)| <= buffer.Length
    requires temp0 <= buffer.Length && buffer[..temp0] == Print(Proposed(nodes, index))
    modifies buffer
    ensures temp == RECORD_SIZE * |Proposed(nodes, index + 1)| <= buffer.Length
    ensures buffer[..temp] == Print(Proposed(nodes, index + 1))
  {
    hide Encode, Describe, Proposed, Print;
    ghost var ds := Proposed(nodes, index);
    ProposedStep(nodes, index + 1);
    temp := temp0;
    if nodes[index].status != ResNone {
      var d := Describe(index, nodes[index]);
      assert Proposed(nodes, index + 1) == ds + [d];
      WriteRecord(buffer, temp, d);
      PrintOneMore(ds, d);
      assert buffer[..temp + RECORD_SIZE] == buffer[..temp] + buffer[temp..temp + RECORD_SIZE];
      temp := temp + RECORD_SIZE;
    } else {
      assert Proposed(nodes, index + 1) == ds;
    }
  }

  /** Fills the proposal buffer through the moving pointer temp. */
  method WriteProposal(nodes: seq<ResNode>) returns (buffer: array<u8>)
    requires |nodes| == TYPE_MAX && Words64(nodes)
    ensures fresh(buffer) && buffer[..] == ProposedStream(nodes)
  {
    hide Describe, Print;
    var number := CountActive(nodes);
    buffer := new u8[number * RECORD_SIZE + 2](_ => 0);
    var temp := 0;
    EmptyProposal(nodes);
    for index := 0 to TYPE_BUS
      invariant temp == RECORD_SIZE * |Proposed(nodes, index)| <= buffer.Length
      invariant buffer[..temp] == Print(Proposed(nodes, index))
    {
      ProposedGrows(nodes, index + 1, TYPE_BUS);
      temp := WriteNode(buffer, nodes, index, temp);
    }
    buffer[temp] := END_TAG;
    buffer[temp + 1] := 0;
    assert buffer[..] == buffer[..temp] + [END_TAG, 0];
  }

  lemma EmptyProposal(nodes: seq<ResNode>)
    requires |nodes| == TYPE_MAX && Words64(nodes)
    ensures Print(Proposed(nodes, 0)) == []
  {
  }

  lemma PrintOneMore(ds: seq<Descriptor>, d: Descriptor)
    ensures Print(ds + [d]) == Print(ds) + Encode(d)
  {
    hide Encode;
    assert (ds + [d])[..|ds + [d]| - 1] == ds;
  }

  lemma {:induction false} ProposedGrows(nodes: seq<ResNode>, k: nat, t: nat)
    requires |nodes| == TYPE_MAX && k <= t <= TYPE_BUS && Words64(nodes)
    ensures |Proposed(nodes, k)| <= |Proposed(nodes, t)|
    decreases t
  {
    if k < t {
      ProposedGrows(nodes, k, t - 1);
    }
  }
}
