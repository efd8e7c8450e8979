/** Root bridge transfers without the driver's tables: which requests are accepted, and which byte goes
    where, with widths 0 to 3 normal, 4 to 7 FIFO and 8 to 11 fill. */
module TransferBytes {
  import opened Words
  import opened Slices
  import opened RootBridgeIo

  /** Bytes of one element: 1, 2, 4 and 8 in turn. */
  predicate IsSize(width: nat, e: nat) {
    match width % 4
    case 0 => e == 1
    case 1 => e == 2
    case 2 => e == 4
    case _ => e == 8
  }

  lemma SizeIs(width: nat, e: nat)
    ensures ElementSize(width) == e <==> IsSize(width, e)
  {
  }

  /** The length of a run on the target: a FIFO access stays at one element. */
  function RunLength(width: nat, e: nat, count: u64): nat {
    if 4 <= width <= 7 then e else e * count
  }

  /** A memory or port access is accepted if and only if it is aligned and its run lies in the window. */
  lemma AcceptedOnBus(ap: Apertures, io: bool, width: nat, e: nat, address: u64, count: u64)
    requires IsSize(width, e)
    ensures Acceptable(ap, if io then IoOperation else MemOperation, width, address, count, false)
       <==> && width < 12 && (io ==> e < 8) && address % e == 0
            && (if io then ap.ioBase else ap.memBase) <= address <= (if io then ap.ioLimit else ap.memLimit)
            && address + RunLength(width, e, count) <= (if io then ap.ioLimit else ap.memLimit) + 1
  {
    SizeIs(width, e);
    hide ElementSize;
  }

  /** A configuration access is accepted if and only if bus, device and function are in range and its run,
      from the register on, ends in the function's 4 KiB.  The address holds the register in bits 0 to 7,
      the function from bit 8, the device from bit 16, the bus from bit 24 and the extended register from
      bit 32 on; the latter counts unless it is zero. */
  lemma AcceptedOnConfig(ap: Apertures, width: nat, e: nat, address: u64, count: u64)
    requires IsSize(width, e)
    ensures Acceptable(ap, PciOperation, width, address, count, false)
       <==> && width < 12 && e < 8 && address % e == 0
            && ap.busBase <= address / 0x100_0000 % 256 <= ap.busLimit
            && address / 0x1_0000 % 256 < 32 && address / 0x100 % 256 < 8
            && (if address / 0x1_0000_0000 != 0 then address / 0x1_0000_0000 else address % 256) <= 0xFFF
            && (if address / 0x1_0000_0000 != 0 then address / 0x1_0000_0000 else address % 256)
               + RunLength(width, e, count) <= 0x1000
  {
    SizeIs(width, e);
    hide ElementSize;
  }

  /** Byte j of element c, for c below count. */
  lemma PlaceOf(e: nat, count: nat, c: nat, j: nat)
    requires c < count && j < e
    ensures 0 <= c * e && c * e + j < count * e == e * count && (count - 1) * e == e * count - e
  {
    Scaled(c + 1, count, e);
    assert e * (c + 1) == c * e + e && e * count == count * e;
  }

  /** What a write leaves in the target range: byte j of element c is that byte of the buffer (normal), byte j
      of the buffer's one element (fill), and the range is the last element (FIFO). */
  lemma WrittenByte(width: nat, e: nat, count: nat, buf: seq<u8>, c: nat, j: nat)
    requires width < 12 && IsSize(width, e) && BufferExtent(width, count) <= |buf| && c < count && j < e
    ensures 0 <= c * e
    ensures var d := Written(width, count, buf);
            && (width < 4 ==> |d| == e * count && c * e + j < |d| <= |buf| && d[c * e + j] == buf[c * e + j])
            && (4 <= width <= 7 ==> |d| == e && 0 <= e * count - e + j < |buf| && d[j] == buf[e * count - e + j])
            && (8 <= width ==> |d| == e * count && c * e + j < |d| && j < |buf| && d[c * e + j] == buf[j])
  {
    SizeIs(width, e);
    hide ElementSize, IsSize;
    PlaceOf(e, count, c, j);
    if 8 <= width {
      RepeatAt(buf[..e], count, c, j);
    }
  }

  /** What a read leaves in the buffer: byte j of element c is that byte of the target range (normal) or of
      its one element (FIFO), and the buffer receives the last element of the range (fill). */
  lemma ReceivedByte(width: nat, e: nat, count: nat, address: nat, mem: seq<u8>, c: nat, j: nat)
    requires width < 12 && IsSize(width, e) && address + TargetExtent(width, count) <= |mem| && c < count && j < e
    ensures 0 <= c * e
    ensures var d := Received(width, count, address, mem);
            && (width < 4 ==> |d| == e * count && c * e + j < |d| && address + c * e + j < |mem| && d[c * e + j] == mem[address + c * e + j])
            && (4 <= width <= 7 ==> |d| == e * count && c * e + j < |d| && address + j < |mem| && d[c * e + j] == mem[address + j])
            && (8 <= width ==> |d| == e && 0 <= address + e * count - e + j < |mem| && d[j] == mem[address + e * count - e + j])
  {
    SizeIs(width, e);
    PlaceOf(e, count, c, j);
    if width < 4 {
      ReadNormal(width, e, count, address, mem, c, j);
    } else if width <= 7 {
      RepeatAt(mem[address..address + e], count, c, j);
    } else {
      ReadFill(width, e, count, address, mem, j);
    }
  }

  lemma ReadNormal(width: nat, e: nat, count: nat, address: nat, mem: seq<u8>, c: nat, j: nat)
    requires width < 4 && ElementSize(width) == e && address + TargetExtent(width, count) <= |mem| && c < count && j < e
    ensures 0 <= c * e && c * e + j < e * count && address + c * e + j < |mem|
    ensures var d := Received(width, count, address, mem); |d| == e * count && d[c * e + j] == mem[address + c * e + j]
  {
    hide ElementSize;
    PlaceOf(e, count, c, j);
  }

  lemma ReadFill(width: nat, e: nat, count: nat, address: nat, mem: seq<u8>, j: nat)
    requires 8 <= width < 12 && ElementSize(width) == e && address + TargetExtent(width, count) <= |mem| && 0 < count && j < e
    ensures 0 <= e * count - e && address + e * count - e + j < |mem|
    ensures var d := Received(width, count, address, mem); |d| == e && d[j] == mem[address + e * count - e + j]
  {
    hide ElementSize;
    PlaceOf(e, count, 0, j);
  }
}
