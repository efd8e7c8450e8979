/** ProcessPciHost: the device tree node of the generic PCI host controller becomes the platform
    configuration of the PCI drivers.  A node is the values of its properties; the ranges
    property is a sequence of big-endian records, of which the last of each kind is kept, and
    the configuration is stored only when all of it is usable. */
module FdtPci {
  import opened Words
  import opened Efi

  // ----- properties of the node

  /** The n-byte big-endian number at offset off. */
  function Be(s: seq<u8>, off: nat, n: nat): (v: nat)
    requires off + n <= |s|
    ensures v < Pow256(n)
    decreases n
  {
    if n == 0 then 0 else 256 * Be(s, off, n - 1) + s[off + n - 1]
  }

  function Be32(s: seq<u8>, off: nat): u32
    requires off + 4 <= |s|
  {
    Pow256Values();
    Be(s, off, 4)
  }

  function Be64(s: seq<u8>, off: nat): u64
    requires off + 8 <= |s|
  {
    Pow256Values();
    Be(s, off, 8)
  }

  /** Numbers in the tree have their most significant byte first. */
  lemma BigEndian(s: seq<u8>, off: nat)
    ensures off + 4 <= |s| ==>
              Be32(s, off) as int == 0x100_0000 * (s[off] as int) + 0x1_0000 * (s[off + 1] as int) + 0x100 * (s[off + 2] as int) + s[off + 3]
    ensures off + 8 <= |s| ==> Be64(s, off) as int == 0x1_0000_0000 * (Be32(s, off) as int) + Be32(s, off + 4)
  {
    if off + 4 <= |s| {
      FourDigits(s, off);
    }
    if off + 8 <= |s| {
      FourDigits(s, off);
      FourDigits(s, off + 4);
      BeSplit(s, off, 4);
    }
  }

  lemma FourDigits(s: seq<u8>, off: nat)
    requires off + 4 <= |s|
    ensures Be(s, off, 4) as int == 0x100_0000 * (s[off] as int) + 0x1_0000 * (s[off + 1] as int) + 0x100 * (s[off + 2] as int) + s[off + 3]
  {
    assert Be(s, off, 1) == 256 * Be(s, off, 0) + s[off];
    assert Be(s, off, 2) == 256 * Be(s, off, 1) + s[off + 1];
    assert Be(s, off, 3) == 256 * Be(s, off, 2) + s[off + 2];
  }

  lemma BeStep(s: seq<u8>, off: nat, n: nat)
    requires 0 < n && off + n <= |s|
    ensures Be(s, off, n) == 256 * Be(s, off, n - 1) + s[off + n - 1]
  {
  }

  lemma OneMoreDigit(p: nat, high: nat, low: nat, digit: nat)
    ensures 256 * (p * high + low) + digit == 256 * p * high + (256 * low + digit)
  {
  }

  /** The first four bytes of a longer number are its high digits. */
  lemma {:induction false} BeSplit(s: seq<u8>, off: nat, n: nat)
    requires off + 4 + n <= |s|
    ensures Be(s, off, 4 + n) as int == Pow256(n) * Be(s, off, 4) + Be(s, off + 4, n)
    decreases n
  {
    if n > 0 {
      BeSplit(s, off, n - 1);
      BeStep(s, off, 4 + n);
      BeStep(s, off + 4, n);
      hide Be;
      OneMoreDigit(Pow256(n - 1), Be(s, off, 4), Be(s, off + 4, n - 1), s[off + 3 + n]);
    }
  }

  /** "reg" (its caller guarantees four cells); "bus-range" and "ranges" may be missing. */
  datatype Node = Node(reg: seq<u8>, busRange: Option<seq<u8>>, ranges: Option<seq<u8>>)

  datatype Record = Record(kind: u32, childBase: u64, cpuBase: u64, size: u64)
  {
    /** kind & DTB_PCI_HOST_RANGE_TYPEMASK: bits 31 to 29, 25 and 24. */
    function Masked(): u32 {
      kind / 0x2000_0000 * 0x2000_0000 + kind / 0x100_0000 % 4 * 0x100_0000
    }

    predicate IsIo() {
      Masked() == 0x100_0000
    }

    predicate IsMmio32() {
      Masked() == 0x200_0000
    }

    predicate Below4G() {
      childBase + size <= TWO32 && childBase < TWO32 && size < TWO32
    }

    predicate Identity() {
      cpuBase == childBase
    }
  }

  const RECORD_SIZE: nat := 28

  function RecordAt(s: seq<u8>, i: nat): Record
    requires RECORD_SIZE * (i + 1) <= |s|
  {
    Record(Be32(s, RECORD_SIZE * i), Be64(s, RECORD_SIZE * i + 4), Be64(s, RECORD_SIZE * i + 12), Be64(s, RECORD_SIZE * i + 20))
  }

  function Records(s: seq<u8>): (r: seq<Record>)
    ensures |r| == |s| / RECORD_SIZE
  {
    seq(|s| / RECORD_SIZE, i requires 0 <= i < |s| / RECORD_SIZE => RecordAt(s, i))
  }

  // ----- what the node means

  predicate BusRangeOk(node: Node)
    requires |node.reg| == 16
  {
    && node.busRange.Some? && |node.busRange.value| == 8
    && var (lo, hi) := (Be32(node.busRange.value, 0), Be32(node.busRange.value, 4));
    && lo <= hi && hi - lo < TWO32 - 1
    && 0x10_0000 * (hi - lo + 1) <= Be64(node.reg, 8)
  }

  predicate RangesOk(node: Node) {
    node.ranges.Some? && |node.ranges.value| > 0 && |node.ranges.value| % RECORD_SIZE == 0
  }

  /** The first record the loop refuses. */
  function FirstBad(rs: seq<Record>, i: nat): (r: nat)
    requires i <= |rs|
    ensures i <= r <= |rs|
    ensures r < |rs| ==> rs[r].IsMmio32() && !(rs[r].Below4G() && rs[r].Identity())
    ensures forall k :: i <= k < r && rs[k].IsMmio32() ==> rs[k].Below4G() && rs[k].Identity()
    decreases |rs| - i
  {
    if i == |rs| || (rs[i].IsMmio32() && !(rs[i].Below4G() && rs[i].Identity())) then i else FirstBad(rs, i + 1)
  }

  /** The last I/O record, and the last 32-bit memory record. */
  function LastIo(rs: seq<Record>): Option<Record> {
    if rs == [] then None
    else if rs[|rs| - 1].IsIo() then Some(rs[|rs| - 1])
    else LastIo(rs[..|rs| - 1])
  }

  function LastMmio32(rs: seq<Record>): Option<Record> {
    if rs == [] then None
    else if rs[|rs| - 1].IsMmio32() then Some(rs[|rs| - 1])
    else LastMmio32(rs[..|rs| - 1])
  }

  lemma {:induction false} LastIoMeans(rs: seq<Record>)
    ensures LastIo(rs).None? <==> forall k :: 0 <= k < |rs| ==> !rs[k].IsIo()
    ensures LastIo(rs).Some? ==>
              exists k :: 0 <= k < |rs| && rs[k] == LastIo(rs).value && rs[k].IsIo()
                && forall j :: k < j < |rs| ==> !rs[j].IsIo()
  {
    hide Record.IsIo;
    if rs != [] {
      var n := |rs| - 1;
      if rs[n].IsIo() {
        assert rs[n] == LastIo(rs).value;
      } else {
        LastIoMeans(rs[..n]);
        if LastIo(rs).Some? {
          var k :| 0 <= k < n && rs[..n][k] == LastIo(rs).value && rs[..n][k].IsIo()
                     && forall j :: k < j < n ==> !rs[..n][j].IsIo();
          forall j | k < j < |rs| ensures !rs[j].IsIo() {
            assert j < n ==> rs[..n][j] == rs[j];
          }
          assert rs[k] == LastIo(rs).value;
        } else {
          forall k | 0 <= k < |rs| ensures !rs[k].IsIo() {
            assert k < n ==> rs[..n][k] == rs[k];
          }
        }
      }
    }
  }

  lemma {:induction false} LastMmio32Means(rs: seq<Record>)
    ensures LastMmio32(rs).None? <==> forall k :: 0 <= k < |rs| ==> !rs[k].IsMmio32()
    ensures LastMmio32(rs).Some? ==>
              exists k :: 0 <= k < |rs| && rs[k] == LastMmio32(rs).value && rs[k].IsMmio32()
                && forall j :: k < j < |rs| ==> !rs[j].IsMmio32()
  {
    hide Record.IsMmio32;
    if rs != [] {
      var n := |rs| - 1;
      if rs[n].IsMmio32() {
        assert rs[n] == LastMmio32(rs).value;
      } else {
        LastMmio32Means(rs[..n]);
        if LastMmio32(rs).Some? {
          var k :| 0 <= k < n && rs[..n][k] == LastMmio32(rs).value && rs[..n][k].IsMmio32()
                     && forall j :: k < j < n ==> !rs[..n][j].IsMmio32();
          forall j | k < j < |rs| ensures !rs[j].IsMmio32() {
            assert j < n ==> rs[..n][j] == rs[j];
          }
          assert rs[k] == LastMmio32(rs).value;
        } else {
          forall k | 0 <= k < |rs| ensures !rs[k].IsMmio32() {
            assert k < n ==> rs[..n][k] == rs[k];
          }
        }
      }
    }
  }

  /** The dynamic PCDs the PCI drivers read. */
  datatype Pcds = Pcds(configBase: u64, busMin: u32, busMax: u32, ioBase: u64, ioSize: u64, ioTranslation: u64,
                       mmio32Base: u32, mmio32Size: u32, disableBusEnumeration: bool)

  /** The PCDs written for a node whose windows are the given records. */
  function PcdsOf(node: Node, io: Record, mmio: Record): Pcds
    requires |node.reg| == 16 && node.busRange.Some? && |node.busRange.value| == 8
    requires mmio.Below4G()
  {
    Pcds(Be64(node.reg, 0), Be32(node.busRange.value, 0), Be32(node.busRange.value, 4),
         io.childBase, io.size, Wrap64(io.cpuBase - io.childBase), mmio.childBase, mmio.size, false)
  }

  /** A node that can be used: both windows present, every MMIO32 record an identity below 4 GB. */
  predicate Usable(node: Node)
    requires |node.reg| == 16
  {
    && BusRangeOk(node) && RangesOk(node)
    && var rs := Records(node.ranges.value);
    && FirstBad(rs, 0) == |rs|
    && LastIo(rs).Some? && LastIo(rs).value.size > 0
    && LastMmio32(rs).Some? && LastMmio32(rs).value.size > 0
  }

  // ----- the parser

  datatype Windows = Windows(ioBase: u64, ioSize: u64, ioTranslation: u64, mmioBase: u64, mmioSize: u64)

  /** The window variables hold the last record of each kind; a size of zero if there is none. */
  predicate Scanned(w: Windows, rs: seq<Record>) {
    && (match LastIo(rs)
        case None => w.ioSize == 0
        case Some(r) => w.ioBase == r.childBase && w.ioSize == r.size && w.ioTranslation == Wrap64(r.cpuBase - r.childBase))
    && (match LastMmio32(rs)
        case None => w.mmioSize == 0
        case Some(r) => w.mmioBase == r.childBase && w.mmioSize == r.size)
  }

  lemma ScanOne(rs: seq<Record>, n: nat)
    requires n < |rs|
    ensures LastIo(rs[..n + 1]) == if rs[n].IsIo() then Some(rs[n]) else LastIo(rs[..n])
    ensures LastMmio32(rs[..n + 1]) == if rs[n].IsMmio32() then Some(rs[n]) else LastMmio32(rs[..n])
    ensures !(rs[n].IsIo() && rs[n].IsMmio32())
  {
    assert rs[..n + 1][..n] == rs[..n];
  }

  /** Record i of the ranges property is the last one whose kind has the given space code. */
  ghost predicate LastOfSpace(s: seq<u8>, space: nat, i: int) {
    && 0 <= i < |s| / 28
    && SpaceOf(s, i) == space
    && forall k :: i < k < |s| / 28 ==> SpaceOf(s, k) != space
  }

  /** The space code of record i, 1 for I/O and 2 for 32-bit memory, as bits 25 and 24 of its first cell; 4 if
      one of bits 31 to 29 is set. */
  function SpaceOf(s: seq<u8>, i: nat): (c: nat)
    requires i < |s| / 28
  {
    if s[28 * i] / 32 != 0 then 4 else s[28 * i] % 4
  }

  lemma SpaceIsKind(s: seq<u8>, i: nat)
    requires i < |s| / 28
    ensures RecordAt(s, i).IsIo() <==> SpaceOf(s, i) == 1
    ensures RecordAt(s, i).IsMmio32() <==> SpaceOf(s, i) == 2
  {
    BigEndian(s, 28 * i);
    hide Be32, Be64;
    var rest := 0x1_0000 * (s[28 * i + 1] as int) + 0x100 * (s[28 * i + 2] as int) + s[28 * i + 3] as int;
    HighByte(RecordAt(s, i).kind, s[28 * i], rest);
  }

  lemma HighByte(kind: u32, b: u8, rest: nat)
    requires kind as int == 0x100_0000 * b + rest && rest < 0x100_0000
    ensures kind / 0x2000_0000 == b / 32 && kind / 0x100_0000 % 4 == b % 4
  {
    assert kind / 0x100_0000 == b;
  }

  /** The address in an I/O or memory record i: bus side at byte 4, processor side at byte 12, length at byte 20. */
  ghost predicate IdentityBelow4G(s: seq<u8>, i: nat)
    requires i < |s| / 28
  {
    && Be64(s, 28 * i + 4) == Be64(s, 28 * i + 12)
    && Be64(s, 28 * i + 4) < 0x1_0000_0000 && Be64(s, 28 * i + 20) < 0x1_0000_0000
    && Be64(s, 28 * i + 4) + Be64(s, 28 * i + 20) <= 0x1_0000_0000
  }

  /** A node whose windows are records i and j, in the bytes of its properties. */
  ghost predicate Describes(node: Node, i: int, j: int)
    requires |node.reg| == 16
  {
    && node.busRange.Some? && |node.busRange.value| == 8
    && var (lo, hi) := (Be32(node.busRange.value, 0) as int, Be32(node.busRange.value, 4) as int);
    && lo <= hi <= lo + 0xFFFF_FFFE
    && Be64(node.reg, 8) / 0x10_0000 >= hi - lo + 1
    && node.ranges.Some? && |node.ranges.value| > 0 && |node.ranges.value| % 28 == 0
    && var s := node.ranges.value;
    && LastOfSpace(s, 1, i) && Be64(s, 28 * i + 20) != 0
    && LastOfSpace(s, 2, j) && Be64(s, 28 * j + 20) != 0
    && forall k :: 0 <= k < |s| / 28 && SpaceOf(s, k) == 2 ==> IdentityBelow4G(s, k)
  }

  /** The last I/O record and the last 32-bit memory record, by position in the property. */
  lemma LastByPosition(s: seq<u8>) returns (i: int, j: int)
    ensures LastIo(Records(s)).Some? <==> LastOfSpace(s, 1, i)
    ensures LastOfSpace(s, 1, i) ==> LastIo(Records(s)) == Some(RecordAt(s, i))
    ensures forall k :: LastOfSpace(s, 1, k) ==> k == i
    ensures LastMmio32(Records(s)).Some? <==> LastOfSpace(s, 2, j)
    ensures LastOfSpace(s, 2, j) ==> LastMmio32(Records(s)) == Some(RecordAt(s, j))
    ensures forall k :: LastOfSpace(s, 2, k) ==> k == j
  {
    hide LastIo, LastMmio32, SpaceOf, RecordAt, Record.IsIo, Record.IsMmio32;
    i, j := -1, -1;
    var rs := Records(s);
    LastIoMeans(rs);
    LastMmio32Means(rs);
    forall k | 0 <= k < |rs| ensures rs[k].IsIo() <==> SpaceOf(s, k) == 1
                             ensures rs[k].IsMmio32() <==> SpaceOf(s, k) == 2
    {
      SpaceIsKind(s, k);
    }
    if LastIo(rs).Some? {
      i :| 0 <= i < |rs| && rs[i] == LastIo(rs).value && rs[i].IsIo() && forall k :: i < k < |rs| ==> !rs[k].IsIo();
    }
    if LastMmio32(rs).Some? {
      j :| 0 <= j < |rs| && rs[j] == LastMmio32(rs).value && rs[j].IsMmio32() && forall k :: j < k < |rs| ==> !rs[k].IsMmio32();
    }
  }

  /** No record is refused exactly when every 32-bit memory record is an identity below 4 GB. */
  lemma NoneRefused(s: seq<u8>)
    ensures FirstBad(Records(s), 0) == |Records(s)|
       <==> forall k :: 0 <= k < |s| / 28 && SpaceOf(s, k) == 2 ==> IdentityBelow4G(s, k)
  {
    hide SpaceOf, Be64, Be32, FirstBad, Record.IsMmio32;
    var rs := Records(s);
    forall k | 0 <= k < |rs| ensures rs[k].IsMmio32() <==> SpaceOf(s, k) == 2
                             ensures rs[k].Below4G() && rs[k].Identity() <==> IdentityBelow4G(s, k)
    {
      SpaceIsKind(s, k);
    }
  }

  /** The node is usable exactly when the bytes of its properties describe two windows. */
  lemma UsableIff(node: Node)
    requires |node.reg| == 16
    ensures Usable(node) <==> exists i, j :: Describes(node, i, j)
  {
    hide LastIo, LastMmio32, SpaceOf, LastOfSpace, IdentityBelow4G, FirstBad, Records, Be, Be32, Be64;
    if RangesOk(node) {
      var s := node.ranges.value;
      NoneRefused(s);
      var i, j := LastByPosition(s);
      assert Usable(node) ==> Describes(node, i, j);
      if i', j' :| Describes(node, i', j') {
        assert i' == i && j' == j;
      }
    }
  }

  /** The PCDs are the numbers at their places in the properties. */
  ghost predicate Stores(node: Node, i: int, j: int, p: Pcds)
    requires |node.reg| == 16 && Describes(node, i, j)
  {
    var s := node.ranges.value;
    && p.configBase == Be64(node.reg, 0)
    && p.busMin == Be32(node.busRange.value, 0) && p.busMax == Be32(node.busRange.value, 4)
    && p.ioBase == Be64(s, 28 * i + 4) && p.ioSize == Be64(s, 28 * i + 20)
    && p.ioTranslation as int == (Be64(s, 28 * i + 12) - Be64(s, 28 * i + 4)) % 0x1_0000_0000_0000_0000
    && p.mmio32Base == Be64(s, 28 * j + 4) && p.mmio32Size == Be64(s, 28 * j + 20)
    && !p.disableBusEnumeration
  }

  /** What a successful parse stores, in the bytes of the properties. */
  lemma StoredWindows(node: Node, i: int, j: int)
    requires |node.reg| == 16 && Usable(node) && Describes(node, i, j)
    ensures var rs := Records(node.ranges.value);
            LastMmio32(rs).value.Below4G()
            && Stores(node, i, j, PcdsOf(node, LastIo(rs).value, LastMmio32(rs).value))
  {
    hide LastIo, LastMmio32, SpaceOf, LastOfSpace, IdentityBelow4G, FirstBad, Records, Be, Be32, Be64;
    var i', j' := LastByPosition(node.ranges.value);
    assert i' == i && j' == j;
    LastMmio32IsGood(Records(node.ranges.value));
  }

  lemma LastMmio32IsGood(rs: seq<Record>)
    requires FirstBad(rs, 0) == |rs| && LastMmio32(rs).Some?
    ensures LastMmio32(rs).value.Below4G() && LastMmio32(rs).value.Identity()
  {
    LastMmio32Means(rs);
  }

  class PcdDatabase {
    var pcds: Pcds

    constructor (pcds: Pcds)
      ensures this.pcds == pcds
    {
      this.pcds := pcds;
    }

    /** ProcessPciHost. It succeeds exactly for usable nodes and then stores the last I/O and MMIO32
        windows; on failure nothing is stored, and EFI_UNSUPPORTED singles out a first refused record
        that is an MMIO32 window below 4 GB with a translation. */
    method ProcessPciHost(node: Node) returns (status: EfiStatus)
      requires |node.reg| == 16
      modifies this
      ensures status.Success? <==> Usable(node)
      ensures status.Success? ==>
                var rs := Records(node.ranges.value);
                LastMmio32(rs).value.Below4G() && pcds == PcdsOf(node, LastIo(rs).value, LastMmio32(rs).value)
      ensures status.Success? <==> exists i, j :: Describes(node, i, j)
      ensures status.Success? ==> forall i, j :: Describes(node, i, j) ==> Stores(node, i, j, pcds)
      ensures !status.Success? ==> pcds == old(pcds)
      ensures status.Unsupported? <==>
                && BusRangeOk(node) && RangesOk(node)
                && var rs := Records(node.ranges.value);
                && FirstBad(rs, 0) < |rs| && rs[FirstBad(rs, 0)].Below4G()
      ensures status in {Success, Unsupported, ProtocolError}
    {
      hide Be, Be32, Be64, LastIo, LastMmio32, Record.IsIo, Record.IsMmio32, Record.Identity, Wrap64, RecordAt,
           Describes, Stores;
      UsableIff(node);
      var configBase := Be64(node.reg, 0);
      var configSize := Be64(node.reg, 8);
      if node.busRange.None? || |node.busRange.value| != 8 {
        return ProtocolError;
      }
      var busMin := Be32(node.busRange.value, 0);
      var busMax := Be32(node.busRange.value, 4);
      if busMax < busMin || busMax - busMin == TWO32 - 1 || configSize / 0x10_0000 < busMax - busMin + 1 {
        return ProtocolError;
      }
      if node.ranges.None? || |node.ranges.value| == 0 || |node.ranges.value| % RECORD_SIZE != 0 {
        return ProtocolError;
      }
      ghost var rs := Records(node.ranges.value);
      var w := Windows(0, 0, 0, 0, 0);
      var recordIdx := 0;
      NothingScanned(rs);
      while recordIdx < |node.ranges.value| / RECORD_SIZE
        invariant recordIdx <= |rs| && pcds == old(pcds)
        invariant FirstBad(rs, 0) == FirstBad(rs, recordIdx)
        invariant Scanned(w, rs[..recordIdx])
      {
        var record := RecordAt(node.ranges.value, recordIdx);
        assert record == rs[recordIdx];
        ScanOne(rs, recordIdx);
        if record.IsIo() {
          w := w.(ioBase := record.childBase, ioSize := record.size, ioTranslation := Wrap64(record.cpuBase - record.childBase));
        } else if record.IsMmio32() {
          w := w.(mmioBase := record.childBase, mmioSize := record.size);
          var mmioTranslation := Wrap64(record.cpuBase - record.childBase);
          TranslationZero(record);
          if w.mmioBase > TWO32 - 1 || w.mmioSize > TWO32 - 1 || Wrap64Sum(w.mmioBase, w.mmioSize) > TWO32 {
            return ProtocolError;
          }
          if mmioTranslation != 0 {
            return Unsupported;
          }
        }
        recordIdx := recordIdx + 1;
      }
      assert rs[..recordIdx] == rs;
      if w.ioSize == 0 || w.mmioSize == 0 {
        return ProtocolError;
      }
      LastMmio32IsGood(rs);
      pcds := Pcds(configBase, busMin, busMax, w.ioBase, w.ioSize, w.ioTranslation, w.mmioBase, w.mmioSize, false);
      status := Success;
      forall i, j | Describes(node, i, j) ensures Stores(node, i, j, pcds) {
        StoredWindows(node, i, j);
      }
    }
  }

  /** MmioBase + MmioSize in 64 bits. */
  function Wrap64Sum(x: u64, y: u64): (r: u64)
    ensures x + y < TWO64 ==> r == x + y
  {
    Wrap64(x + y)
  }

  lemma TranslationZero(r: Record)
    ensures Wrap64(r.cpuBase - r.childBase) == 0 <==> r.Identity()
  {
  }

  lemma NothingScanned(rs: seq<Record>)
    ensures Scanned(Windows(0, 0, 0, 0, 0), rs[..0])
  {
  }

  /** What a successful parse guarantees the PCI drivers: a non-empty, identity-mapped MMIO32 window
      below 4 GB, and configuration space for every bus. */
  lemma ParsedWindows(node: Node)
    requires |node.reg| == 16 && Usable(node)
    ensures var rs := Records(node.ranges.value);
            var io, mmio := LastIo(rs).value, LastMmio32(rs).value;
            && mmio.Below4G()
            && var pcds := PcdsOf(node, io, mmio);
            && pcds.ioSize > 0 && pcds.mmio32Size > 0
            && pcds.mmio32Base + pcds.mmio32Size <= TWO32 && mmio.cpuBase == pcds.mmio32Base
            && pcds.busMin <= pcds.busMax && 0x10_0000 * (pcds.busMax - pcds.busMin + 1) <= Be64(node.reg, 8)
  {
    hide Be64, Be32, Records;
    LastMmio32IsGood(Records(node.ranges.value));
  }
}
