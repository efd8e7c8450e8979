/** Which calls of the protocol forget an allocated window, so that nothing would ever free it. */
module HostBridgeDiscipline {
  import opened Words
  import opened Efi
  import opened Gcd
  import opened AcpiDescriptor
  import opened HostBridgeModel
  import opened HostBridgeSafety

  predicate Allocated(h: Host, i: nat, idx: nat)
    requires h.WellShaped() && i < |h.bridges| && idx < TYPE_MAX
  {
    h.Node(i, idx).status == ResAllocated
  }

  predicate NoneAllocated(h: Host)
    requires h.WellShaped()
  {
    forall i, idx :: 0 <= i < |h.bridges| && 0 <= idx < TYPE_BUS ==> !Allocated(h, i, idx)
  }

  // ----- what each call must not do

  /** The window type a record asks for, if the checks let it through. */
  function RequestedType(attrib: nat, d: Descriptor): Option<nat> {
    if d.addrLen == 0 || d.addrLen > 0xffff_ffff then None
    else if d.rangeMax >= 0xffff_ffff || d.rangeMax != GetPowerOfTwo64(d.rangeMax + 1) - 1 then None
    else if d.resType == 0 && d.granularity == 32 && d.specificFlag != 6 then Some(TYPE_MEM32)
    else if d.resType == 1 then Some(TYPE_IO)
    else None
  }

  /** Some record among the first n, reached and accepted, asks for a window of type t. */
  predicate Requests(p: Submission, attrib: nat, s: seq<u8>, n: nat, t: nat)
    requires |p.nodes| == TYPE_MAX && RECORD_SIZE * n <= |s|
  {
    n > 0
    && (Requests(p, attrib, s, n - 1, t)
        || (SubmitPrefix(p, attrib, s, n - 1).ok
            && RequestedType(attrib, Decode(s, RECORD_SIZE * (n - 1))) == Some(t)))
  }

  /** The submission gets past its scan and finds its root bridge. */
  predicate SubmitReaches(h: Host, handle: int, config: Option<seq<u8>>) {
    && config.Some? && Scannable(config.value, 0)
    && RECORD_SIZE * RecordCount(config.value, 0) < |config.value|
    && config.value[RECORD_SIZE * RecordCount(config.value, 0)] == END_TAG
    && FindBridge(h.bridges, handle) < |h.bridges|
  }

  /** The stream, as far as it is accepted, asks for a window of type t. */
  predicate RequestsOf(h: Host, handle: int, config: Option<seq<u8>>, t: nat)
    requires h.WellShaped() && SubmitReaches(h, handle, config)
  {
    var b := h.bridges[FindBridge(h.bridges, handle)];
    Requests(Submission(true, b.nodes, h.submitted), b.attrib, config.value, RecordCount(config.value, 0), t)
  }

  /** No accepted record asks for a window that is allocated. */
  predicate SubmitDropsNothing(h: Host, handle: int, config: Option<seq<u8>>)
    requires h.WellShaped()
  {
    SubmitReaches(h, handle, config) ==>
      forall t :: 0 <= t <= TYPE_MEM32 && Allocated(h, FindBridge(h.bridges, handle), t) ==>
        !RequestsOf(h, handle, config, t)
  }

  /** Every allocated window meets EFI_OUT_OF_RESOURCES, so its node is left alone. */
  predicate AllocateDropsNothing(h: Host, answers: seq<Answer>)
    requires h.WellShaped()
  {
    forall i, t :: 0 <= i < |h.bridges| && 0 <= t <= TYPE_MEM32 && Allocated(h, i, t) ==>
      AnswerAt(answers, TYPE_BUS * i + t) == Refuse(OutOfResources)
  }

  /** The GCD refuses to free no allocated window. */
  predicate FreeDropsNothing(h: Host, answers: seq<Answer>)
    requires h.WellShaped()
  {
    forall i, t :: 0 <= i < |h.bridges| && 0 <= t <= TYPE_MEM32 && Allocated(h, i, t) ==>
      !Refused(AnswerAt(answers, TYPE_BUS * i + t))
  }

  /** The call forgets no allocated window. */
  predicate DropsNothing(h: Host, e: Event)
    requires h.WellShaped() && e.Callable()
  {
    match e
    case SubmitEvent(handle, config) => SubmitDropsNothing(h, handle, config)
    case NotifyEvent(phase, answers) =>
      match phase
      case BeginEnumeration => h.canRestart ==> NoneAllocated(h)
      case AllocateResources => h.submitted ==> AllocateDropsNothing(h, answers)
      case FreeResources => FreeDropsNothing(h, answers)
      case _ => true
  }

  ghost predicate DisciplinedRun(h: Host, lim: Limits, es: seq<Event>)
    requires h.WellShaped()
  {
    && (forall e :: e in es ==> e.Callable())
    && forall k :: 0 <= k < |es| ==> DropsNothing(Run(h, lim, es[..k]), es[k])
  }
}
