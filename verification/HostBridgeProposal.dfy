/** GetProposedResources and SubmitResources agree on the stream format, and handing a proposal back is
    accepted and keeps every requested length. */
module HostBridgeProposal {
  import opened Words
  import opened Efi
  import opened AcpiDescriptor
  import opened HostBridgeModel
  import opened HostBridgeSafety

  lemma {:induction false} PrintedRecord(ds: seq<Descriptor>, k: nat)
    requires k < |ds|
    ensures Print(ds)[RECORD_SIZE * k..RECORD_SIZE * k + RECORD_SIZE] == Encode(ds[k])
    decreases |ds|
  {
    if k < |ds| - 1 {
      PrintedRecord(ds[..|ds| - 1], k);
      assert Print(ds)[RECORD_SIZE * k..RECORD_SIZE * k + RECORD_SIZE]
          == Print(ds[..|ds| - 1])[RECORD_SIZE * k..RECORD_SIZE * k + RECORD_SIZE];
    }
  }

  /** Number of nodes among the first k types that are not ResNone. */
  function ActiveCount(nodes: seq<ResNode>, k: nat): nat
    requires k <= |nodes|
  {
    if k == 0 then 0 else ActiveCount(nodes, k - 1) + (if nodes[k - 1].status == ResNone then 0 else 1)
  }

  lemma {:induction false} ProposedLength(nodes: seq<ResNode>, k: nat)
    requires |nodes| == TYPE_MAX && k <= TYPE_BUS && Words64(nodes)
    ensures |Proposed(nodes, k)| == ActiveCount(nodes, k)
    decreases k
  {
    if k > 0 {
      ProposedLength(nodes, k - 1);
    }
  }

  /** The bytes s hold the given records from offset 0 on. */
  predicate Reads(s: seq<u8>, ds: seq<Descriptor>) {
    && RECORD_SIZE * |ds| <= |s|
    && forall k :: 0 <= k < |ds| ==> Decode(s, RECORD_SIZE * k) == ds[k]
  }

  lemma PrintedSize(ds: seq<Descriptor>)
    ensures |Print(ds)| == RECORD_SIZE * |ds|
  {
  }

  lemma EncodeStarts(d: Descriptor)
    ensures |Encode(d)| == RECORD_SIZE && Encode(d)[0] == ADDRESS_SPACE
  {
  }

  lemma SliceOfPrefix(a: seq<u8>, b: seq<u8>, i: nat, j: nat)
    requires i <= j <= |a|
    ensures (a + b)[i..j] == a[i..j]
  {
  }

  lemma RecordInStream(ds: seq<Descriptor>, k: nat)
    requires k < |ds|
    ensures var s := Print(ds) + [END_TAG, 0];
            s[RECORD_SIZE * k] == ADDRESS_SPACE && Decode(s, RECORD_SIZE * k) == ds[k]
  {
    hide Decode, Encode, Print;
    var s := Print(ds) + [END_TAG, 0];
    PrintedSize(ds);
    PrintedRecord(ds, k);
    SliceOfPrefix(Print(ds), [END_TAG, 0], RECORD_SIZE * k, RECORD_SIZE * k + RECORD_SIZE);
    EncodeStarts(ds[k]);
    assert s[RECORD_SIZE * k] == s[RECORD_SIZE * k..RECORD_SIZE * k + RECORD_SIZE][0];
    DecodeEncode(s, RECORD_SIZE * k, ds[k]);
  }

  lemma PrintScans(ds: seq<Descriptor>)
    ensures var s := Print(ds) + [END_TAG, 0];
            Scannable(s, 0) && RecordCount(s, 0) == |ds| && s[RECORD_SIZE * |ds|] == END_TAG && Reads(s, ds)
  {
    hide Decode, Encode, Scannable, RecordCount, Print;
    PrintedSize(ds);
    var s := Print(ds) + [END_TAG, 0];
    assert s[RECORD_SIZE * |ds|] == END_TAG;
    forall k | 0 <= k < |ds|
      ensures s[0 + RECORD_SIZE * k] == ADDRESS_SPACE
      ensures Decode(s, RECORD_SIZE * k) == ds[k]
    {
      RecordInStream(ds, k);
    }
    ScanStopsAt(s, 0, |ds|);
  }

  /** The scan of SubmitResources reads back exactly the printed descriptors, one for each node
      that is not ResNone, and stops on the end tag, with only the checksum byte behind it. */
  lemma ProposalScans(nodes: seq<ResNode>)
    requires |nodes| == TYPE_MAX && Words64(nodes)
    ensures var s, n := ProposedStream(nodes), ActiveCount(nodes, TYPE_BUS);
            && Scannable(s, 0) && RecordCount(s, 0) == n
            && |s| == RECORD_SIZE * n + 2 && s[RECORD_SIZE * n] == END_TAG
            && |Proposed(nodes, TYPE_BUS)| == n
            && Reads(s, Proposed(nodes, TYPE_BUS))
  {
    ProposedLength(nodes, TYPE_BUS);
    PrintScans(Proposed(nodes, TYPE_BUS));
  }

  lemma {:induction false} ProposedAt(nodes: seq<ResNode>, k: nat, t: nat)
    requires |nodes| == TYPE_MAX && t < k <= TYPE_BUS && Words64(nodes) && nodes[t].status != ResNone
    ensures ActiveCount(nodes, t) < |Proposed(nodes, k)| && Proposed(nodes, k)[ActiveCount(nodes, t)] == Describe(t, nodes[t])
    decreases k
  {
    hide Describe, Proposed;
    ProposedStep(nodes, k);
    ProposedLength(nodes, k - 1);
    if t < k - 1 {
      ProposedAt(nodes, k - 1, t);
    }
  }

  /** What a proposal says of an active node, in the record behind those of the active nodes before it: type,
      base and length for I/O (type 1) and memory (type 0), and in the translation field whether the request is
      satisfied, which means allocated, or not (-2); the other memory types do not exist (-1). */
  lemma ProposedRecord(nodes: seq<ResNode>, t: nat)
    requires |nodes| == TYPE_MAX && Words64(nodes) && t < TYPE_BUS && nodes[t].status != ResNone
    ensures var s, o := ProposedStream(nodes), RECORD_SIZE * ActiveCount(nodes, t);
            && o + RECORD_SIZE <= |s|
            && var d := Decode(s, o);
            && d.resType == (if t == 0 then 1 else 0) && d.genFlag == 0
            && d.specificFlag == (if t == 2 || t == 4 then 6 else 0)
            && d.granularity == (if t == 0 then 0 else if t <= 2 then 32 else 64)
            && d.rangeMin == (if t <= 1 then nodes[t].base else 0) && d.rangeMax == 0
            && d.translation == (if t > 1 then 0xFFFF_FFFF_FFFF_FFFF
                                 else if nodes[t].status == ResAllocated then 0 else 0xFFFF_FFFF_FFFF_FFFE)
            && d.addrLen == (if t <= 1 then nodes[t].length else 0)
  {
    ProposalScans(nodes);
    ProposedAt(nodes, TYPE_BUS, t);
    hide ProposedStream, Proposed, Decode, ActiveCount, Scannable, RecordCount;
    var k := ActiveCount(nodes, t);
    assert Decode(ProposedStream(nodes), RECORD_SIZE * k) == Proposed(nodes, TYPE_BUS)[k];
  }

  // ----- submitting the proposal again

  /** A node after its own proposal has been resubmitted. */
  function Resubmitted(n: ResNode, idx: nat): ResNode {
    if n.status == ResNone || n.length == 0 || idx > TYPE_MEM32 then n
    else n.(alignment := 0, status := ResRequested)
  }

  lemma ZeroMaskPasses()
    ensures 0 == GetPowerOfTwo64(0 + 1) - 1
  {
    assert HighBitSet64(1) == 0 && Pow2(0) == 1;
  }

  lemma ResubmitOne(p: Submission, attrib: nat, idx: nat)
    requires |p.nodes| == TYPE_MAX && p.ok && idx < TYPE_BUS && Words64(p.nodes)
    requires idx <= TYPE_MEM32 ==> p.nodes[idx].length <= 0xffff_ffff
    requires p.nodes[idx].status != ResNone
    ensures SubmitOne(p, attrib, Describe(idx, p.nodes[idx]))
         == p.(nodes := p.nodes[idx := Resubmitted(p.nodes[idx], idx)], submitted := true)
  {
    ZeroMaskPasses();
    assert p.nodes[idx := p.nodes[idx]] == p.nodes;
  }

  /** The nodes once the first t types have been resubmitted. */
  function ResubmittedNodes(nodes: seq<ResNode>, t: nat): (r: seq<ResNode>)
    requires t <= |nodes|
    ensures |r| == |nodes|
    ensures forall k :: 0 <= k < |nodes| ==> r[k] == if k < t then Resubmitted(nodes[k], k) else nodes[k]
  {
    seq(|nodes|, k requires 0 <= k < |nodes| => if k < t then Resubmitted(nodes[k], k) else nodes[k])
  }

  /** Submitting decoded records one after the other. */
  function SubmitRecords(p: Submission, attrib: nat, ds: seq<Descriptor>): (r: Submission)
    requires |p.nodes| == TYPE_MAX
    ensures |r.nodes| == TYPE_MAX
  {
    if ds == [] then p else SubmitOne(SubmitRecords(p, attrib, ds[..|ds| - 1]), attrib, ds[|ds| - 1])
  }

  lemma SubmitOneMore(p: Submission, attrib: nat, ds: seq<Descriptor>, d: Descriptor)
    requires |p.nodes| == TYPE_MAX
    ensures SubmitRecords(p, attrib, ds + [d]) == SubmitOne(SubmitRecords(p, attrib, ds), attrib, d)
  {
    assert (ds + [d])[..|ds + [d]| - 1] == ds;
  }

  lemma {:induction false} SubmitReadsRecords(p: Submission, attrib: nat, s: seq<u8>, ds: seq<Descriptor>)
    requires |p.nodes| == TYPE_MAX && Reads(s, ds)
    ensures SubmitPrefix(p, attrib, s, |ds|) == SubmitRecords(p, attrib, ds)
    decreases |ds|
  {
    if ds != [] {
      SubmitReadsRecords(p, attrib, s, ds[..|ds| - 1]);
    }
  }

  predicate ShortLengths(nodes: seq<ResNode>)
    requires |nodes| == TYPE_MAX
  {
    nodes[TYPE_IO].length <= 0xffff_ffff && nodes[TYPE_MEM32].length <= 0xffff_ffff
  }

  lemma ResubmitStep(nodes: seq<ResNode>, submitted: bool, attrib: nat, t: nat)
    requires |nodes| == TYPE_MAX && Words64(nodes) && ShortLengths(nodes) && t < TYPE_BUS
    requires nodes[t].status != ResNone
    ensures SubmitOne(Submission(true, ResubmittedNodes(nodes, t), submitted), attrib, Describe(t, nodes[t]))
         == Submission(true, ResubmittedNodes(nodes, t + 1), true)
  {
    var before := ResubmittedNodes(nodes, t);
    assert Words64(before) && before[t] == nodes[t];
    ResubmitOne(Submission(true, before, submitted), attrib, t);
    assert ResubmittedNodes(nodes, t + 1) == before[t := Resubmitted(nodes[t], t)];
  }

  lemma NothingResubmitted(nodes: seq<ResNode>, submitted: bool, attrib: nat)
    requires |nodes| == TYPE_MAX && Words64(nodes)
    ensures ResubmittedNodes(nodes, 0) == nodes && Proposed(nodes, 0) == []
    ensures SubmitRecords(Submission(true, nodes, submitted), attrib, []) == Submission(true, nodes, submitted)
  {
    hide Resubmitted;
  }

  lemma NothingMoreResubmitted(nodes: seq<ResNode>, t: nat)
    requires 0 < t <= |nodes| && nodes[t - 1].status == ResNone
    ensures ResubmittedNodes(nodes, t) == ResubmittedNodes(nodes, t - 1)
  {
  }

  lemma {:induction false} ResubmitPrefix(nodes: seq<ResNode>, submitted: bool, attrib: nat, t: nat)
    requires |nodes| == TYPE_MAX && Words64(nodes) && ShortLengths(nodes) && t <= TYPE_BUS
    ensures SubmitRecords(Submission(true, nodes, submitted), attrib, Proposed(nodes, t))
         == Submission(true, ResubmittedNodes(nodes, t), submitted || |Proposed(nodes, t)| > 0)
    decreases t
  {
    hide Proposed, Resubmitted, SubmitOne, Describe, SubmitRecords, ShortLengths;
    if t == 0 {
      NothingResubmitted(nodes, submitted, attrib);
    } else {
      var ds := Proposed(nodes, t - 1);
      ResubmitPrefix(nodes, submitted, attrib, t - 1);
      ProposedStep(nodes, t);
      if nodes[t - 1].status == ResNone {
        assert Proposed(nodes, t) == ds;
        NothingMoreResubmitted(nodes, t);
      } else {
        SubmitOneMore(Submission(true, nodes, submitted), attrib, ds, Describe(t - 1, nodes[t - 1]));
        ResubmitStep(nodes, submitted || |ds| > 0, attrib, t - 1);
      }
    }
  }

  /** Lengths stay 32-bit words, and printed bases 64-bit words. */
  lemma NodesAreSmall(h: Host, lim: Limits, i: nat)
    requires Inv(h, lim) && lim.io < TWO64 && lim.mem < TWO64 && i < |h.bridges|
    ensures Words64(h.bridges[i].nodes) && ShortLengths(h.bridges[i].nodes)
  {
    CellIsPlaced(h, lim, i, TYPE_IO);
    CellIsPlaced(h, lim, i, TYPE_MEM32);
    hide Inv;
  }

  lemma ProposalResubmitsHere(h: Host, i: nat)
    requires h.WellShaped() && i < |h.bridges| && FindBridge(h.bridges, h.bridges[i].handle) == i
    requires Words64(h.bridges[i].nodes) && ShortLengths(h.bridges[i].nodes)
    ensures Scannable(ProposedStream(h.bridges[i].nodes), 0)
    ensures Submit(h, h.bridges[i].handle, Some(ProposedStream(h.bridges[i].nodes)))
         == (h.(bridges := h.bridges[i := h.bridges[i].(nodes := ResubmittedNodes(h.bridges[i].nodes, TYPE_BUS))],
                submitted := h.submitted || ActiveCount(h.bridges[i].nodes, TYPE_BUS) > 0),
             Success)
  {
    var nodes := h.bridges[i].nodes;
    ProposalScans(nodes);
    ResubmitPrefix(nodes, h.submitted, h.bridges[i].attrib, TYPE_BUS);
    SubmitReadsRecords(Submission(true, nodes, h.submitted), h.bridges[i].attrib,
                       ProposedStream(nodes), Proposed(nodes, TYPE_BUS));
  }

  /** In every reachable state, submitting a root bridge's own proposal succeeds: exactly its I/O and
      Mem32 windows that are not empty become requests again, of the same base and length but with
      their alignment forgotten, since the proposal does not carry it; every other node stays. */
  lemma ProposalResubmits(h0: Host, lim: Limits, es: seq<Event>, i: nat)
    requires Initial(h0) && forall e :: e in es ==> e.Callable()
    requires lim.io < TWO64 && lim.mem < TWO64
    requires i < |h0.bridges| && FindBridge(h0.bridges, h0.bridges[i].handle) == i
    ensures var h := Run(h0, lim, es);
            && |h.bridges| == |h0.bridges| && Words64(h.bridges[i].nodes)
            && Scannable(ProposedStream(h.bridges[i].nodes), 0)
            && var (h', st) := Submit(h, h.bridges[i].handle, Some(ProposedStream(h.bridges[i].nodes)));
            && st == Success
            && |h'.bridges| == |h.bridges|
            && (forall k :: 0 <= k < TYPE_MAX ==>
                  var n := h.Node(i, k);
                  h'.Node(i, k) == if k <= TYPE_MEM32 && n.status != ResNone && n.length > 0
                                   then n.(alignment := 0, status := ResRequested) else n)
            && (forall j :: 0 <= j < |h.bridges| && j != i ==> h'.bridges[j] == h.bridges[j])
  {
    hide Inv, Run, Submit, ProposedStream;
    ReachableInv(h0, lim, es);
    var h := Run(h0, lim, es);
    SameHandlesFindSame(h0.bridges, h.bridges, h0.bridges[i].handle);
    NodesAreSmall(h, lim, i);
    ProposalResubmitsHere(h, i);
  }

  lemma {:induction false} SameHandlesFindSame(a: seq<Bridge>, b: seq<Bridge>, handle: int)
    requires |a| == |b| && forall i :: 0 <= i < |a| ==> a[i].handle == b[i].handle
    ensures FindBridge(a, handle) == FindBridge(b, handle)
    decreases |a|
  {
    if a != [] {
      SameHandlesFindSame(a[1..], b[1..], handle);
    }
  }
}
