/** From the device tree to the bus: what ProcessPciHost stores, InitializePciHostBridge turns into
    the resource aperture, the host bridge allocates from it, and root bridge I/O accesses it. */
module PciPlatform {
  import opened Words
  import opened Efi
  import opened FdtPci
  import opened RootBridgeIo
  import Model = HostBridgeModel
  import Safety = HostBridgeSafety
  import Windows = HostBridgeAperture
  import Copy = RootBridgeCopy

  /** The aperture set up by InitializePciHostBridge, as RootBridgeConstructor copies it. */
  function ApertureOf(pcds: Pcds): Apertures {
    Apertures(pcds.mmio32Base, Wrap64(pcds.mmio32Base + pcds.mmio32Size - 1),
              pcds.ioBase, Wrap64(Wrap64(pcds.ioBase + pcds.ioSize) - 1), pcds.ioTranslation,
              pcds.busMin, pcds.busMax)
  }

  /** A usable node whose I/O window wraps neither on the bus nor on the CPU side. */
  predicate Sound(node: Node) {
    && |node.reg| == 16 && Usable(node)
    && Io(node).childBase + Io(node).size <= TWO64
    && Io(node).cpuBase + Io(node).size <= TWO64
  }

  function Io(node: Node): Record
    requires |node.reg| == 16 && Usable(node)
  {
    LastIo(Records(node.ranges.value)).value
  }

  function Mmio(node: Node): (r: Record)
    requires |node.reg| == 16 && Usable(node)
    ensures r.Below4G() && r.Identity() && r.size > 0
  {
    LastMmio32IsGood(Records(node.ranges.value));
    LastMmio32(Records(node.ranges.value)).value
  }

  /** The aperture of the PCDs stored for the node. */
  function Aperture(node: Node): Apertures
    requires |node.reg| == 16 && Usable(node)
  {
    ApertureOf(PcdsOf(node, Io(node), Mmio(node)))
  }

  /** Both windows survive the arithmetic: limits are the last addresses of the records, and the
      translation, possibly a wrapped negative number, maps the first port to the CPU base. */
  lemma ApertureFields(node: Node)
    requires Sound(node)
    ensures var ap := Aperture(node);
            && ap.ioBase == Io(node).childBase && ap.ioLimit == Io(node).childBase + Io(node).size - 1
            && ap.memBase == Mmio(node).cpuBase && ap.memLimit == Mmio(node).cpuBase + Mmio(node).size - 1
            && CpuIoBase(ap) == Io(node).cpuBase && IoImageFits(ap)
  {
    hide Usable, Records, LastIo, LastMmio32;
    IoSizePositive(node);
    WrapChain(Io(node).childBase, Io(node).size);
    WrapBack(Io(node).childBase, Io(node).cpuBase);
  }

  lemma IoSizePositive(node: Node)
    requires |node.reg| == 16 && Usable(node)
    ensures Io(node).size > 0
  {
  }

  lemma WrapChain(base: u64, size: u64)
    requires size > 0 && base + size <= TWO64
    ensures Wrap64(Wrap64(base + size) - 1) == base + size - 1
  {
  }

  lemma WrapBack(child: u64, cpu: u64)
    ensures Wrap64(child + Wrap64(cpu - child)) == cpu
  {
  }

  /** On the aperture of every usable node, whose memory window ends below 4 GB, a copy that succeeds is a
      memmove. */
  lemma ParsedCopyIsMemmove(node: Node)
    requires |node.reg| == 16 && Usable(node)
    ensures Copy.AlwaysMoves(Aperture(node))
  {
    hide Usable, Records, Io, Copy.AlwaysMoves;
    Copy.CopyIsMemmoveIff(Aperture(node));
  }

  /** Every I/O access the range check accepts reaches CpuBase + (port - ChildBase) of the last I/O
      record, and stays inside that record's CPU window. */
  lemma PortReachesCpu(node: Node, width: nat, port: u64, count: u64)
    requires Sound(node) && Acceptable(Aperture(node), IoOperation, width, port, count, false)
    ensures var cpu := Io(node).cpuBase + (port - Io(node).childBase);
            && Wrap64(port + Aperture(node).ioTranslation) == cpu
            && Io(node).cpuBase <= cpu && cpu + TargetExtent(width, count) <= Io(node).cpuBase + Io(node).size
  {
    hide Usable, Records, Io, Mmio, Aperture, TargetExtent, ElementSize, Wrap64;
    ApertureFields(node);
    var ap := Aperture(node);
    AcceptedExtent(ap, IoOperation, width, port, count);
    Translated(ap, port);
    assert Wrap64(port + ap.ioTranslation) == CpuIoBase(ap) + (port - ap.ioBase);
  }

  lemma Translated(ap: Apertures, port: u64)
    requires IoImageFits(ap) && ap.ioBase <= port <= ap.ioLimit
    ensures Wrap64(port + ap.ioTranslation) == CpuIoBase(ap) + (port - ap.ioBase)
  {
    WrapSum(ap.ioBase + ap.ioTranslation, port - ap.ioBase);
  }

  function LimitsOf(ap: Apertures): Model.Limits {
    Model.Limits(ap.ioLimit, ap.memLimit)
  }

  function BaseOf(ap: Apertures, idx: nat): u64 {
    if idx == Model.TYPE_IO then ap.ioBase else ap.memBase
  }

  function OperationOn(idx: nat): Operation {
    if idx == Model.TYPE_IO then IoOperation else MemOperation
  }

  /** The access is aligned and lies in the window. */
  predicate AccessInside(n: Model.ResNode, idx: nat, width: nat, address: u64, count: u64) {
    && n.status == Model.ResAllocated
    && Addressable(OperationOn(idx), width, false) && address % ElementSize(width) == 0
    && n.base <= address < n.base + n.length
    && address + ElementSize(width) * Steps(width, count) <= n.base + n.length
  }

  /** After the run, this access, if it is aligned and inside the root bridge's window, is accepted
      by root bridge I/O; a port access then reaches the CPU window of the device tree's I/O record. */
  ghost predicate AccessWorks(node: Node, h: Model.Host, es: seq<Model.Event>, i: nat, idx: nat,
                              width: nat, address: u64, count: u64)
    requires |node.reg| == 16 && Usable(node)
    requires h.WellShaped() && Windows.AllCallable(es) && idx <= Model.TYPE_MEM32
  {
    var h' := Model.Run(h, LimitsOf(Aperture(node)), es);
    i < |h'.bridges| && AccessInside(h'.Node(i, idx), idx, width, address, count) ==>
      && Acceptable(Aperture(node), OperationOn(idx), width, address, count, false)
      && (idx == Model.TYPE_IO && Sound(node) ==>
            var cpu := Wrap64(address + Aperture(node).ioTranslation);
            Io(node).cpuBase <= cpu && cpu + TargetExtent(width, count) <= Io(node).cpuBase + Io(node).size)
  }

  /** Every run of top-down grants leaves every window accessible. */
  ghost predicate AlwaysAccessible(node: Node, h: Model.Host, idx: nat, passes: Windows.Passing)
    requires |node.reg| == 16 && Usable(node)
    requires h.WellShaped() && idx <= Model.TYPE_MEM32
  {
    forall es: seq<Model.Event>, i: nat, width: nat, address: u64, count: u64 ::
      Windows.AllCallable(es) && Windows.TopDownRun(h, LimitsOf(Aperture(node)), es, passes) ==>
        AccessWorks(node, h, es, i, idx, width, address, count)
  }

  lemma WindowIsAccepted(ap: Apertures, n: Model.ResNode, idx: nat, width: nat, address: u64, count: u64)
    requires idx <= Model.TYPE_MEM32 && AccessInside(n, idx, width, address, count)
    requires n.length > 0 ==> BaseOf(ap, idx) <= n.base && n.base + n.length - 1 <= Model.Limit(LimitsOf(ap), idx)
    ensures Acceptable(ap, OperationOn(idx), width, address, count, false)
  {
    hide ElementSize, Steps;
  }

  lemma AllocatedWindowIsAccessible(node: Node, h: Model.Host, es: seq<Model.Event>, i: nat, idx: nat,
                                    width: nat, address: u64, count: u64)
    requires |node.reg| == 16 && Usable(node)
    requires Safety.Initial(h) && Windows.AllCallable(es) && idx <= Model.TYPE_MEM32
    requires Windows.NothingBelow(h.Space(idx).pool, BaseOf(Aperture(node), idx), Model.Limit(LimitsOf(Aperture(node)), idx))
    ensures h.WellShaped() && AccessWorks(node, h, es, i, idx, width, address, count)
  {
    Safety.InitialShape(h);
    hide Usable, Records, Io, Mmio, Aperture, TargetExtent, ElementSize, Wrap64, Steps, Model.Run, AccessInside,
         Acceptable, Sound, Safety.Initial, Windows.NothingBelow, Windows.AllCallable;
    var ap := Aperture(node);
    var h' := Model.Run(h, LimitsOf(ap), es);
    Windows.AllocatedWindowInAperture(h, LimitsOf(ap), es, i, idx, BaseOf(ap, idx));
    if i < |h'.bridges| && AccessInside(h'.Node(i, idx), idx, width, address, count) {
      WindowIsAccepted(ap, h'.Node(i, idx), idx, width, address, count);
      if idx == Model.TYPE_IO && Sound(node) {
        PortReachesCpu(node, width, address, count);
      }
    }
  }

  /** A window below the aperture base refuses even a one-byte access to its first address. */
  lemma SpillIsInaccessible(node: Node, h: Model.Host, idx: nat, low: nat, passes: Windows.Passing)
      returns (es: seq<Model.Event>)
    requires |node.reg| == 16 && Usable(node)
    requires Safety.Initial(h) && |h.bridges| > 0 && idx <= Model.TYPE_MEM32
    requires low in h.Space(idx).pool && low < BaseOf(Aperture(node), idx)
    requires Windows.Reaches(Model.Limit(LimitsOf(Aperture(node)), idx), passes, low)
    ensures h.WellShaped() && low < TWO64
    ensures Windows.AllCallable(es) && Windows.TopDownRun(h, LimitsOf(Aperture(node)), es, passes)
    ensures !AccessWorks(node, h, es, 0, idx, 0, low, 1)
  {
    hide Usable, Records, Io, Mmio, Aperture, Wrap64, Model.Run, Sound, Safety.Initial, Windows.AllCallable,
         Windows.Reaches, Windows.TopDownRun;
    Safety.InitialShape(h);
    es := Windows.SpillsBelow(h, LimitsOf(Aperture(node)), idx, low, passes);
    assert AccessInside(Model.ResNode(low, 1, 0, Model.ResAllocated), idx, 0, low, 1);
    assert !Acceptable(Aperture(node), OperationOn(idx), 0, low, 1, false);
  }

  /** From the device tree to the bus: after every run of the resource allocation protocol root bridge
      I/O accepts every aligned access inside an allocated window, if and only if the GCD has no
      address of that type below the aperture base that the device tree gave. */
  lemma AccessibleIff(node: Node, h: Model.Host, idx: nat, passes: Windows.Passing)
    requires |node.reg| == 16 && Usable(node)
    requires Safety.Initial(h) && |h.bridges| > 0 && idx <= Model.TYPE_MEM32
    requires Windows.SearchReaches(LimitsOf(Aperture(node)), idx, BaseOf(Aperture(node), idx), passes)
    ensures h.WellShaped()
    ensures AlwaysAccessible(node, h, idx, passes)
       <==> Windows.NothingBelow(h.Space(idx).pool, BaseOf(Aperture(node), idx), Model.Limit(LimitsOf(Aperture(node)), idx))
  {
    Safety.InitialShape(h);
    hide Usable, Records, Aperture, AccessWorks, Safety.Initial, Windows.AllCallable, Windows.TopDownRun;
    var base, limit := BaseOf(Aperture(node), idx), Model.Limit(LimitsOf(Aperture(node)), idx);
    if Windows.NothingBelow(h.Space(idx).pool, base, limit) {
      forall es: seq<Model.Event>, i: nat, width: nat, address: u64, count: u64 | Windows.AllCallable(es)
        ensures AccessWorks(node, h, es, i, idx, width, address, count)
      {
        AllocatedWindowIsAccessible(node, h, es, i, idx, width, address, count);
      }
    } else {
      var low :| low in h.Space(idx).pool && 0 <= low <= limit && low < base;
      var es := SpillIsInaccessible(node, h, idx, low, passes);
    }
  }

  /** The search reaches the free addresses below the base on every memory aperture that is parsed from a
      usable node, and on every I/O aperture whose window does not wrap. */
  lemma ParsedApertureIsReached(node: Node, idx: nat, passes: Windows.Passing)
    requires |node.reg| == 16 && Usable(node) && idx <= Model.TYPE_MEM32
    requires idx == Model.TYPE_IO ==> Sound(node)
    ensures Windows.SearchReaches(LimitsOf(Aperture(node)), idx, BaseOf(Aperture(node), idx), passes)
  {
    hide Usable, Records, Io, Sound;
    if idx == Model.TYPE_IO {
      ApertureFields(node);
      IoSizePositive(node);
    }
  }
}
