/** PCI root bridge I/O: the parameter check, the stride-driven transfers to memory, I/O and
    configuration space, and the copy built from single-element transfers. */
module RootBridgeIo {
  import opened Words
  import opened Efi
  import opened Slices

  datatype Operation = IoOperation | MemOperation | PciOperation

  const MAX_PCI_DEVICE_NUMBER: int := 31
  const MAX_PCI_FUNCTION_NUMBER: int := 7
  const MAX_PCI_REG_ADDRESS: int := 0xFFF
  const BIT63: int := 0x8000_0000_0000_0000
  const MAX_UINT64: int := 0xFFFF_FFFF_FFFF_FFFF

  // EFI_PCI_ROOT_BRIDGE_IO_PROTOCOL_WIDTH: 0..3 normal, 4..7 FIFO, 8..11 fill; log2 of the
  // element size in the low two bits.
  const WIDTH_UINT64: int := 3
  const WIDTH_FIFO_UINT8: int := 4
  const WIDTH_FIFO_UINT64: int := 7
  const WIDTH_MAXIMUM: int := 12

  const IN_STRIDE: seq<nat> := [1, 2, 4, 8, 0, 0, 0, 0, 1, 2, 4, 8]
  const OUT_STRIDE: seq<nat> := [1, 2, 4, 8, 1, 2, 4, 8, 0, 0, 0, 0]

  /** Bytes moved by one access of this width. */
  function ElementSize(width: nat): (s: nat)
    ensures s == 1 || s == 2 || s == 4 || s == 8
  {
    IN_STRIDE[width % 4]
  }

  /** The windows RootBridgeConstructor copies from the resource aperture. */
  datatype Apertures = Apertures(
    memBase: u64, memLimit: u64, ioBase: u64, ioLimit: u64, ioTranslation: u64,
    busBase: u64, busLimit: u64)

  // ----- the packed PCI address

  datatype PciAddress = PciAddress(register: u8, fn: u8, device: u8, bus: u8, extended: u32)

  function AsPciAddress(a: u64): PciAddress {
    PciAddress(a % 256, a / 0x100 % 256, a / 0x1_0000 % 256, a / 0x100_0000 % 256, a / 0x1_0000_0000)
  }

  /** The register an access names: the extended one unless it is zero. */
  function RegisterOf(p: PciAddress): u32 {
    if p.extended != 0 then p.extended else p.register
  }

  predicate BusFunctionOk(ap: Apertures, p: PciAddress) {
    && ap.busBase <= p.bus <= ap.busLimit
    && p.device <= MAX_PCI_DEVICE_NUMBER && p.fn <= MAX_PCI_FUNCTION_NUMBER
  }

  // ----- RootBridgeIoCheckParameter

  /** Number of elements that move the target address: FIFO accesses stay at one. */
  function Steps(width: nat, count: u64): nat {
    if WIDTH_FIFO_UINT8 <= width <= WIDTH_FIFO_UINT64 then 1 else count
  }

  /** The window an operation must stay in, and the offset in it at which the access starts. */
  function Window(ap: Apertures, op: Operation, address: u64): (u64, u64, u64) {
    match op
    case IoOperation => (ap.ioBase, ap.ioLimit, address)
    case MemOperation => (ap.memBase, ap.memLimit, address)
    case PciOperation => (0, MAX_PCI_REG_ADDRESS, RegisterOf(AsPciAddress(address)))
  }

  /** When the whole transfer lies in the window, over unbounded integers. */
  predicate InWindow(ap: Apertures, op: Operation, width: nat, address: u64, count: u64) {
    var (base, limit, start) := Window(ap, op, address);
    base <= start <= limit && start + ElementSize(width) * Steps(width, count) <= limit + 1
  }

  /** A request that names a place, whatever its alignment and length. */
  predicate Addressable(op: Operation, width: nat, bufferNull: bool) {
    && !bufferNull
    && width < WIDTH_MAXIMUM
    && (op == MemOperation || width % 4 != WIDTH_UINT64)
  }

  /** The access starts on the bus and inside the window. */
  predicate StartsInside(ap: Apertures, op: Operation, address: u64) {
    var (base, limit, start) := Window(ap, op, address);
    (op == PciOperation ==> BusFunctionOk(ap, AsPciAddress(address))) && base <= start <= limit
  }

  /** What a caller may ask for. */
  predicate Acceptable(ap: Apertures, op: Operation, width: nat, address: u64, count: u64, bufferNull: bool) {
    && Addressable(op, width, bufferNull)
    && address % ElementSize(width) == 0
    && StartsInside(ap, op, address)
    && InWindow(ap, op, width, address, count)
  }

  lemma QuotientBound(count: nat, room: nat, stride: nat)
    requires stride > 0
    ensures count <= room / stride <==> stride * count <= room
  {
    var q := room / stride;
    assert room == stride * q + room % stride;
    if count <= q {
      Scaled(count, q, stride);
    } else {
      Scaled(q + 1, count, stride);
      assert stride * (q + 1) == stride * q + stride;
    }
  }

  lemma Scaled(a: nat, b: nat, stride: nat)
    requires a <= b
    ensures stride * a <= stride * b
  {
    assert stride * b == stride * a + stride * (b - a);
  }

  /** The check accepts exactly the acceptable requests, although every quantity it computes is
      a 64-bit word; a refusal is Unsupported for misalignment and for a run past the limit. */
  method CheckParameter(ap: Apertures, op: Operation, width0: u32, address0: u64, count0: u64, bufferNull: bool)
    returns (status: EfiStatus)
    ensures status == Success <==> Acceptable(ap, op, width0, address0, count0, bufferNull)
    ensures status == Unsupported <==>
      && Addressable(op, width0, bufferNull)
      && (|| address0 % ElementSize(width0) != 0
          || (StartsInside(ap, op, address0) && !InWindow(ap, op, width0, address0, count0)))
    ensures status in {Success, InvalidParameter, Unsupported}
  {
    var width, address, count := width0, address0, count0;
    if bufferNull {
      return InvalidParameter;
    }
    if width >= WIDTH_MAXIMUM {
      return InvalidParameter;
    }
    if width >= WIDTH_FIFO_UINT8 && width <= WIDTH_FIFO_UINT64 {
      count := 1;
    }
    width := width % 4;
    if op != MemOperation && width == WIDTH_UINT64 {
      return InvalidParameter;
    }
    var stride := IN_STRIDE[width];
    if address % stride != 0 {
      return Unsupported;
    }
    var base: u64, limit: u64;
    if op == IoOperation {
      base, limit := ap.ioBase, ap.ioLimit;
    } else if op == MemOperation {
      base, limit := ap.memBase, ap.memLimit;
    } else {
      var pciRbAddr := AsPciAddress(address);
      if pciRbAddr.bus < ap.busBase || pciRbAddr.bus > ap.busLimit {
        return InvalidParameter;
      }
      if pciRbAddr.device > MAX_PCI_DEVICE_NUMBER || pciRbAddr.fn > MAX_PCI_FUNCTION_NUMBER {
        return InvalidParameter;
      }
      if pciRbAddr.extended != 0 {
        address := pciRbAddr.extended;
      } else {
        address := pciRbAddr.register;
      }
      base, limit := 0, MAX_PCI_REG_ADDRESS;
    }
    status := CheckRange(base, limit, address, count, stride);
  }

  /** The end of the check: the run from address, of count strides, against [base, limit]. */
  method CheckRange(base: u64, limit: u64, address: u64, count: u64, stride: nat) returns (status: EfiStatus)
    requires stride in {1, 2, 4, 8}
    ensures status == if !(base <= address <= limit) then InvalidParameter
                      else if address + stride * count > limit + 1 then Unsupported else Success
  {
    if limit < address {
      return InvalidParameter;
    }
    if address < base {
      return InvalidParameter;
    }
    QuotientBound(count, limit - address + 1, stride);
    if address == 0 && limit == MAX_UINT64 {
      if stride > 1 && count > BIT63 / (stride / 2) {
        return Unsupported;
      }
    } else {
      var room: u64 := limit - address + 1;
      if count > room / stride {
        return Unsupported;
      }
    }
    return Success;
  }

  // ----- transfers

  /** One access on the bus: element address, its bytes' place in the caller's buffer, and size. */
  datatype Access = Access(write: bool, address: u64, bufferOffset: nat, size: nat)

  /** Element k of a transfer that starts at `address`: both strides advance in 64-bit words. */
  function ElementAccess(write: bool, width: nat, address: u64, k: nat): Access
    requires width < WIDTH_MAXIMUM
  {
    Access(write, Wrap64(address + k * IN_STRIDE[width]), k * OUT_STRIDE[width], ElementSize(width))
  }

  predicate Fits(a: Access, memLength: nat, bufLength: nat) {
    a.address + a.size <= memLength && a.bufferOffset + a.size <= bufLength
  }

  /** Memory and buffer after one access, for memory that keeps what is written to it. */
  function AfterAccess(a: Access, m: (seq<u8>, seq<u8>)): (r: (seq<u8>, seq<u8>))
    requires Fits(a, |m.0|, |m.1|)
    ensures |r.0| == |m.0| && |r.1| == |m.1|
  {
    if a.write then (Patch(m.0, a.address, m.1[a.bufferOffset..a.bufferOffset + a.size]), m.1)
    else (m.0, Patch(m.1, a.bufferOffset, m.0[a.address..a.address + a.size]))
  }

  /** A transfer's direction, width and start address. */
  datatype Transfer = Transfer(write: bool, width: nat, address: u64)
  {
    ghost predicate Valid() { width < WIDTH_MAXIMUM }

    function Element(k: nat): Access
      requires Valid()
    {
      ElementAccess(write, width, address, k)
    }

    /** Every element lies in the memory and in the buffer. */
    ghost predicate AllFit(count: nat, memLength: nat, bufLength: nat)
      requires Valid()
    {
      forall k :: 0 <= k < count ==> Fits(Element(k), memLength, bufLength)
    }
  }

  /** Memory and buffer after the first count elements. */
  ghost function After(t: Transfer, count: nat, m: (seq<u8>, seq<u8>)): (r: (seq<u8>, seq<u8>))
    requires t.Valid() && t.AllFit(count, |m.0|, |m.1|)
    ensures |r.0| == |m.0| && |r.1| == |m.1|
  {
    if count == 0 then m else AfterAccess(t.Element(count - 1), After(t, count - 1, m))
  }

  /** The three copies of the transfer loop (memory, I/O, configuration) differ only in the space
      they address and in where the start address comes from. */
  method TransferLoop(mem: array<u8>, buf: array<u8>, ghost t: Transfer, write: bool, width: nat, address0: u64, count0: u64)
    returns (ghost trace: seq<Access>)
    requires t == Transfer(write, width, address0) && t.Valid()
    requires mem != buf && t.AllFit(count0, mem.Length, buf.Length)
    modifies mem, buf
    ensures |trace| == count0 && forall k :: 0 <= k < count0 ==> trace[k] == t.Element(k)
    ensures (mem[..], buf[..]) == After(t, count0, (old(mem[..]), old(buf[..])))
  {
    hide AfterAccess, ElementAccess, ElementSize, Patch;
    var inStride, outStride, size := IN_STRIDE[width], OUT_STRIDE[width], ElementSize(width);
    var address: u64, count: nat, uint8Buffer: nat := address0, count0, 0;
    ghost var k: nat := 0;
    ghost var start := (mem[..], buf[..]);
    trace := [];
    ElementFields(t, 0);
    while count > 0
      invariant k + count == count0 && |trace| == k
      invariant address == t.Element(k).address && uint8Buffer == t.Element(k).bufferOffset
      invariant forall j :: 0 <= j < k ==> trace[j] == t.Element(j)
      invariant (mem[..], buf[..]) == After(t, k, start)
    {
      assert Fits(t.Element(k), mem.Length, buf.Length);
      ElementFields(t, k);
      ElementNext(t, k);
      Move(mem, buf, t.Element(k), write, address, uint8Buffer, size);
      trace := trace + [t.Element(k)];
      address, uint8Buffer, count := Wrap64(address + inStride), uint8Buffer + outStride, count - 1;
      k := k + 1;
    }
  }

  lemma ElementFields(t: Transfer, k: nat)
    requires t.Valid()
    ensures var size := ElementSize(t.width);
            t.Element(k) == Access(t.write,
                                   Wrap64(t.address + if Fifo(t.width) then 0 else k * size),
                                   if Fill(t.width) then 0 else k * size, size)
  {
  }

  lemma ElementNext(t: Transfer, k: nat)
    requires t.Valid()
    ensures t.Element(k + 1).address == Wrap64(t.Element(k).address + IN_STRIDE[t.width])
    ensures t.Element(k + 1).bufferOffset == t.Element(k).bufferOffset + OUT_STRIDE[t.width]
  {
    hide Wrap64;
    var inS, outS := IN_STRIDE[t.width], OUT_STRIDE[t.width];
    assert (k + 1) * inS == k * inS + inS && (k + 1) * outS == k * outS + outS;
    WrapSum(t.address + k * inS, inS);
  }

  lemma WrapSum(x: int, y: int)
    ensures Wrap64(Wrap64(x) as int + y) == Wrap64(x + y)
  {
  }

  /** MmioRead8/16/32/64 or MmioWrite8/16/32/64, by size. */
  method Move(mem: array<u8>, buf: array<u8>, ghost a: Access, write: bool, address: u64, bufferOffset: nat, size: nat)
    requires mem != buf && a == Access(write, address, bufferOffset, size) && Fits(a, mem.Length, buf.Length)
    modifies mem, buf
    ensures (mem[..], buf[..]) == AfterAccess(a, (old(mem[..]), old(buf[..])))
  {
    hide Patch;
    ghost var m, b := mem[..], buf[..];
    if write {
      forall j | 0 <= j < size {
        mem[address + j] := buf[bufferOffset + j];
      }
      assert buf[..] == b;
      PatchIs(m, address, b[bufferOffset..bufferOffset + size], mem[..]);
    } else {
      forall j | 0 <= j < size {
        buf[bufferOffset + j] := mem[address + j];
      }
      assert mem[..] == m;
      PatchIs(b, bufferOffset, m[address..address + size], buf[..]);
    }
  }

  // ----- what the transfers mean on memory that keeps what is written to it

  predicate Normal(width: nat) { width < WIDTH_FIFO_UINT8 }
  predicate Fifo(width: nat) { WIDTH_FIFO_UINT8 <= width <= WIDTH_FIFO_UINT64 }
  predicate Fill(width: nat) { WIDTH_FIFO_UINT64 < width < WIDTH_MAXIMUM }

  /** Bytes of the caller's buffer a transfer touches. */
  function BufferExtent(width: nat, count: nat): nat {
    if count == 0 then 0 else if Fill(width) then ElementSize(width) else count * ElementSize(width)
  }

  /** Bytes of the target window a transfer touches. */
  function TargetExtent(width: nat, count: nat): nat {
    if count == 0 then 0 else if Fifo(width) then ElementSize(width) else count * ElementSize(width)
  }

  lemma ElementEnds(size: nat, count: nat, i: nat)
    requires i < count
    ensures 0 <= i * size && i * size + size <= count * size && (count - 1) * size == count * size - size
  {
    var rest := count - i - 1;
    assert count * size == (i + 1 + rest) * size == i * size + size + rest * size;
    assert (count - 1) * size == count * size - size;
  }

  lemma NotWrapped(x: int)
    requires 0 <= x < TWO64
    ensures Wrap64(x) == x
  {
  }

  lemma TransferFits(t: Transfer, count: nat, memLength: nat, bufLength: nat)
    requires t.Valid() && memLength <= TWO64
    requires t.address + TargetExtent(t.width, count) <= memLength
    requires BufferExtent(t.width, count) <= bufLength
    ensures t.AllFit(count, memLength, bufLength)
  {
    hide ElementSize, ElementAccess;
    var size := ElementSize(t.width);
    forall k | 0 <= k < count
      ensures Fits(t.Element(k), memLength, bufLength)
    {
      ElementFields(t, k);
      ElementEnds(size, count, k);
    }
  }

  /** What the target range holds after a write, or what the buffer receives from a read. */
  function Written(width: nat, count: nat, buf: seq<u8>): (d: seq<u8>)
    requires width < WIDTH_MAXIMUM && BufferExtent(width, count) <= |buf|
    ensures |d| == TargetExtent(width, count)
  {
    var size := ElementSize(width);
    if count == 0 then []
    else if Normal(width) then buf[..count * size]
    else if Fill(width) then Repeat(buf[..size], count)
    else
      assert (count - 1) * size + size == count * size;
      buf[(count - 1) * size..count * size]
  }

  function Received(width: nat, count: nat, address: nat, mem: seq<u8>): (d: seq<u8>)
    requires width < WIDTH_MAXIMUM && address + TargetExtent(width, count) <= |mem|
    ensures |d| == BufferExtent(width, count)
  {
    var size := ElementSize(width);
    if count == 0 then []
    else if Normal(width) then mem[address..address + count * size]
    else if Fifo(width) then Repeat(mem[address..address + size], count)
    else
      assert (count - 1) * size + size == count * size;
      mem[address + (count - 1) * size..address + count * size]
  }

  /** One more element extends what was stored (normal, fill) or replaces it (FIFO). */
  lemma WrittenNext(width: nat, k: nat, buf: seq<u8>)
    requires width < WIDTH_MAXIMUM && BufferExtent(width, k) <= BufferExtent(width, k + 1) <= |buf|
    ensures var size, o := ElementSize(width), k * ElementSize(width);
            var d, d' := Written(width, k, buf), Written(width, k + 1, buf);
            if Fifo(width) then
              && 0 <= o && o + size <= |buf| && d' == buf[o..o + size] && |d| == if k == 0 then 0 else size
            else
              var s := if Fill(width) then 0 else o;
              && 0 <= o == |d| && s + size <= |buf| && d' == d + buf[s..s + size]
  {
    hide ElementSize;
    var size := ElementSize(width);
    assert (k + 1) * size == k * size + size;
    var o := k * size;
    if Normal(width) {
      assert buf[..o + size] == buf[..o] + buf[o..o + size];
    } else if Fill(width) {
      assert k > 0 ==> |Repeat(buf[..size], k)| == o;
    }
  }

  lemma WriteStep(t: Transfer, k: nat, mem: seq<u8>, buf: seq<u8>)
    requires t.Valid() && t.write && |mem| <= TWO64
    requires t.address + TargetExtent(t.width, k) <= t.address + TargetExtent(t.width, k + 1) <= |mem|
    requires BufferExtent(t.width, k) <= BufferExtent(t.width, k + 1) <= |buf|
    requires Fits(t.Element(k), |mem|, |buf|)
    ensures AfterAccess(t.Element(k), (Patch(mem, t.address, Written(t.width, k, buf)), buf))
         == (Patch(mem, t.address, Written(t.width, k + 1, buf)), buf)
  {
    hide Patch, ElementSize, ElementAccess, Written, TargetExtent, BufferExtent, Wrap64;
    ElementFields(t, k);
    WrittenNext(t.width, k, buf);
    WrittenSize(t.width, k, buf);
    WrittenSize(t.width, k + 1, buf);
    var size, o := ElementSize(t.width), k * ElementSize(t.width);
    var d, d' := Written(t.width, k, buf), Written(t.width, k + 1, buf);
    var s := if Fill(t.width) then 0 else o;
    NotWrapped(if Fifo(t.width) then t.address else t.address + o);
    if !Fifo(t.width) {
      PatchTwice(mem, t.address, d, buf[s..s + size]);
    } else if k == 0 {
      PatchNothing(mem, t.address);
    } else {
      PatchOver(mem, t.address, d, d');
    }
  }

  lemma WrittenSize(width: nat, count: nat, buf: seq<u8>)
    requires width < WIDTH_MAXIMUM && BufferExtent(width, count) <= |buf|
    ensures |Written(width, count, buf)| == TargetExtent(width, count)
  {
  }

  lemma ReceivedNext(width: nat, k: nat, a: nat, mem: seq<u8>)
    requires width < WIDTH_MAXIMUM && TargetExtent(width, k) <= TargetExtent(width, k + 1)
    requires a + TargetExtent(width, k + 1) <= |mem|
    ensures var size, o := ElementSize(width), k * ElementSize(width);
            var d, d' := Received(width, k, a, mem), Received(width, k + 1, a, mem);
            if Fill(width) then
              && 0 <= o && a + o + size <= |mem| && d' == mem[a + o..a + o + size] && |d| == if k == 0 then 0 else size
            else
              var s := if Fifo(width) then a else a + o;
              && 0 <= o == |d| && s + size <= |mem| && d' == d + mem[s..s + size]
  {
    hide ElementSize;
    var size := ElementSize(width);
    assert (k + 1) * size == k * size + size;
  }

  lemma ReadStep(t: Transfer, k: nat, mem: seq<u8>, buf: seq<u8>)
    requires t.Valid() && !t.write && |mem| <= TWO64
    requires t.address + TargetExtent(t.width, k) <= t.address + TargetExtent(t.width, k + 1) <= |mem|
    requires BufferExtent(t.width, k) <= BufferExtent(t.width, k + 1) <= |buf|
    requires Fits(t.Element(k), |mem|, |buf|)
    ensures AfterAccess(t.Element(k), (mem, Patch(buf, 0, Received(t.width, k, t.address, mem))))
         == (mem, Patch(buf, 0, Received(t.width, k + 1, t.address, mem)))
  {
    hide Patch, ElementSize, ElementAccess, Received, TargetExtent, BufferExtent, Wrap64;
    ElementFields(t, k);
    ReceivedNext(t.width, k, t.address, mem);
    ReceivedSize(t.width, k, t.address, mem);
    ReceivedSize(t.width, k + 1, t.address, mem);
    var size, o := ElementSize(t.width), k * ElementSize(t.width);
    var d, d' := Received(t.width, k, t.address, mem), Received(t.width, k + 1, t.address, mem);
    var s := if Fifo(t.width) then t.address else t.address + o;
    NotWrapped(s);
    if !Fill(t.width) {
      PatchTwice(buf, 0, d, mem[s..s + size]);
    } else if k == 0 {
      PatchNothing(buf, 0);
    } else {
      PatchOver(buf, 0, d, d');
    }
  }

  lemma ReceivedSize(width: nat, count: nat, address: nat, mem: seq<u8>)
    requires width < WIDTH_MAXIMUM && address + TargetExtent(width, count) <= |mem|
    ensures |Received(width, count, address, mem)| == BufferExtent(width, count)
  {
  }

  lemma ExtentsGrow(width: nat, k: nat)
    requires width < WIDTH_MAXIMUM
    ensures TargetExtent(width, k) <= TargetExtent(width, k + 1)
    ensures BufferExtent(width, k) <= BufferExtent(width, k + 1)
  {
    var size := ElementSize(width);
    assert (k + 1) * size == k * size + size;
  }

  /** A write stores exactly Written at the target address: the buffer itself, the buffer's one
      element over and over, or (FIFO) its last element. */
  lemma {:induction false} WriteMeaning(t: Transfer, count: nat, mem: seq<u8>, buf: seq<u8>)
    requires t.Valid() && t.write && |mem| <= TWO64
    requires t.address + TargetExtent(t.width, count) <= |mem| && BufferExtent(t.width, count) <= |buf|
    ensures t.AllFit(count, |mem|, |buf|)
    ensures After(t, count, (mem, buf)) == (Patch(mem, t.address, Written(t.width, count, buf)), buf)
    decreases count
  {
    hide Patch, ElementSize, AfterAccess, ElementAccess, Written, TargetExtent, BufferExtent;
    TransferFits(t, count, |mem|, |buf|);
    if count == 0 {
      NothingYet(t, mem, buf);
    } else {
      ExtentsGrow(t.width, count - 1);
      WriteMeaning(t, count - 1, mem, buf);
      WriteStep(t, count - 1, mem, buf);
    }
  }

  lemma NothingYet(t: Transfer, mem: seq<u8>, buf: seq<u8>)
    requires t.Valid() && t.address <= |mem|
    ensures Patch(mem, t.address, Written(t.width, 0, buf)) == mem
    ensures Patch(buf, 0, Received(t.width, 0, t.address, mem)) == buf
  {
  }

  /** A read leaves memory alone and stores exactly Received at the start of the buffer. */
  lemma {:induction false} ReadMeaning(t: Transfer, count: nat, mem: seq<u8>, buf: seq<u8>)
    requires t.Valid() && !t.write && |mem| <= TWO64
    requires t.address + TargetExtent(t.width, count) <= |mem| && BufferExtent(t.width, count) <= |buf|
    ensures t.AllFit(count, |mem|, |buf|)
    ensures After(t, count, (mem, buf)) == (mem, Patch(buf, 0, Received(t.width, count, t.address, mem)))
    decreases count
  {
    hide Patch, ElementSize, AfterAccess, ElementAccess, Received, TargetExtent, BufferExtent;
    TransferFits(t, count, |mem|, |buf|);
    if count == 0 {
      NothingYet(t, mem, buf);
    } else {
      ExtentsGrow(t.width, count - 1);
      ReadMeaning(t, count - 1, mem, buf);
      ReadStep(t, count - 1, mem, buf);
    }
  }

  /** A trace that touches only [lo, hi]. */
  ghost predicate TraceWithin(trace: seq<Access>, lo: int, hi: int) {
    forall a :: a in trace ==> lo <= a.address && a.address + a.size - 1 <= hi
  }

  /** Accesses of a transfer whose whole extent lies in [lo, hi] stay there. */
  lemma ElementsWithin(t: Transfer, count: nat, lo: int, hi: int)
    requires t.Valid() && lo <= t.address && hi < TWO64
    requires t.address + TargetExtent(t.width, count) <= hi + 1
    ensures forall k :: 0 <= k < count ==>
      lo <= t.Element(k).address && t.Element(k).address + t.Element(k).size - 1 <= hi
  {
    hide ElementSize, ElementAccess, Wrap64;
    var size := ElementSize(t.width);
    forall k | 0 <= k < count
      ensures lo <= t.Element(k).address && t.Element(k).address + t.Element(k).size - 1 <= hi
    {
      ElementFields(t, k);
      ElementEnds(size, count, k);
      NotWrapped(t.address + if Fifo(t.width) then 0 else k * size);
    }
  }

  lemma AcceptedExtent(ap: Apertures, op: Operation, width: nat, address: u64, count: u64)
    requires width < WIDTH_MAXIMUM && InWindow(ap, op, width, address, count)
    ensures var (base, limit, start) := Window(ap, op, address);
            start + TargetExtent(width, count) <= limit + 1
  {
    var size := ElementSize(width);
    assert count * size == size * count;
  }

  /** Runs the transfer loop on a target range known to lie in [lo, hi]. */
  method Deliver(space: array<u8>, buf: array<u8>, write: bool, width: u32, address: u64, count: u64, ghost lo: int, ghost hi: int)
    returns (ghost trace: seq<Access>)
    requires space != buf && width < WIDTH_MAXIMUM && space.Length <= TWO64
    requires lo <= address && address + TargetExtent(width, count) <= hi + 1 <= space.Length
    requires BufferExtent(width, count) <= buf.Length
    modifies space, buf
    ensures TraceWithin(trace, lo, hi)
    ensures |trace| == count && (count > 0 ==> trace[0].address == address)
    ensures write ==>
      space[..] == old(Patch(space[..], address, Written(width, count, buf[..]))) && buf[..] == old(buf[..])
    ensures !write ==>
      space[..] == old(space[..]) && buf[..] == old(Patch(buf[..], 0, Received(width, count, address, space[..])))
  {
    hide Written, Received, Patch, BufferExtent, TargetExtent, ElementSize, ElementAccess;
    ghost var t := Transfer(write, width, address);
    TransferFits(t, count, space.Length, buf.Length);
    ElementsWithin(t, count, lo, hi);
    FirstElement(t);
    if write {
      WriteMeaning(t, count, space[..], buf[..]);
    } else {
      ReadMeaning(t, count, space[..], buf[..]);
    }
    trace := TransferLoop(space, buf, t, write, width, address, count);
  }

  lemma FirstElement(t: Transfer)
    requires t.Valid() && t.address < TWO64
    ensures t.Element(0).address == t.address
  {
  }

  /** RootBridgeIoMemRW. */
  method MemRW(ap: Apertures, mem: array<u8>, buf: array?<u8>, write: bool, width: u32, address: u64, count: u64)
    returns (status: EfiStatus, ghost trace: seq<Access>)
    requires mem.Length == TWO64 && mem != buf
    requires buf != null && width < WIDTH_MAXIMUM ==> BufferExtent(width, count) <= buf.Length
    modifies mem, buf
    ensures status == Success <==> Acceptable(ap, MemOperation, width, address, count, buf == null)
    ensures status != Success ==>
      trace == [] && mem[..] == old(mem[..]) && (buf != null ==> buf[..] == old(buf[..]))
    ensures status == Success ==>
      && TraceWithin(trace, ap.memBase, ap.memLimit)
      && address + TargetExtent(width, count) <= mem.Length
      && if write then
           mem[..] == old(Patch(mem[..], address, Written(width, count, buf[..]))) && buf[..] == old(buf[..])
         else
           mem[..] == old(mem[..]) && buf[..] == old(Patch(buf[..], 0, Received(width, count, address, mem[..])))
  {
    hide Written, Received, Patch, BufferExtent, TargetExtent, ElementSize;
    trace := [];
    status := CheckParameter(ap, MemOperation, width, address, count, buf == null);
    if status.IsError() {
      return;
    }
    AcceptedExtent(ap, MemOperation, width, address, count);
    trace := Deliver(mem, buf, write, width, address, count, ap.memBase, ap.memLimit);
  }

  /** The window I/O accesses land in: the port range moved by IoTranslation, modulo 2^64. */
  function CpuIoBase(ap: Apertures): u64 {
    Wrap64(ap.ioBase + ap.ioTranslation)
  }

  /** Neither the port window nor its image wraps. */
  predicate IoImageFits(ap: Apertures) {
    ap.ioBase <= ap.ioLimit && CpuIoBase(ap) + (ap.ioLimit - ap.ioBase) < TWO64
  }

  /** The bus transfer of an I/O access: its start address is translated modulo 2^64. */
  function IoTransfer(ap: Apertures, write: bool, width: nat, address: u64): Transfer {
    Transfer(write, width, Wrap64(address + ap.ioTranslation))
  }

  /** RootBridgeIoIoRW.  What it asks for is that no single element of an accepted access straddles the
      end of the address space; lemma IoElementsFit gives a condition for that.  The element
      addresses wrap where the translated run does; otherwise one range is moved, and where the whole
      window has an unwrapped image, a port reaches CpuIoBase + (port - ioBase), also when the
      translation is a wrapped negative number. */
  method IoRW(ap: Apertures, mem: array<u8>, buf: array?<u8>, write: bool, width: u32, address0: u64, count: u64)
    returns (status: EfiStatus, ghost trace: seq<Access>)
    requires mem.Length == TWO64 && mem != buf
    requires Acceptable(ap, IoOperation, width, address0, count, buf == null) ==>
               IoTransfer(ap, write, width, address0).AllFit(count, TWO64, buf.Length)
    modifies mem, buf
    ensures status == Success <==> Acceptable(ap, IoOperation, width, address0, count, buf == null)
    ensures status != Success ==>
      trace == [] && mem[..] == old(mem[..]) && (buf != null ==> buf[..] == old(buf[..]))
    ensures status == Success ==>
      var t := IoTransfer(ap, write, width, address0);
      && |trace| == count && (forall k :: 0 <= k < count ==> trace[k] == t.Element(k))
      && (count > 0 ==> trace[0].address == (address0 + ap.ioTranslation) % 0x1_0000_0000_0000_0000)
      && (mem[..], buf[..]) == After(t, count, (old(mem[..]), old(buf[..])))
      && (t.address + TargetExtent(width, count) <= TWO64 && BufferExtent(width, count) <= buf.Length ==>
            if write then
              mem[..] == old(Patch(mem[..], t.address, Written(width, count, buf[..]))) && buf[..] == old(buf[..])
            else
              mem[..] == old(mem[..]) && buf[..] == old(Patch(buf[..], 0, Received(width, count, t.address, mem[..]))))
      && (IoImageFits(ap) ==>
            && t.address == CpuIoBase(ap) + (address0 - ap.ioBase)
            && t.address + TargetExtent(width, count) <= TWO64
            && TraceWithin(trace, CpuIoBase(ap), CpuIoBase(ap) + (ap.ioLimit - ap.ioBase)))
  {
    hide Written, Received, Patch, BufferExtent, TargetExtent, ElementSize, ElementAccess, After;
    trace := [];
    status := CheckParameter(ap, IoOperation, width, address0, count, buf == null);
    if status.IsError() {
      return;
    }
    var address := Wrap64(address0 + ap.ioTranslation);
    FirstElement(IoTransfer(ap, write, width, address0));
    ghost var t := IoTransfer(ap, write, width, address0);
    if t.address + TargetExtent(width, count) <= TWO64 && BufferExtent(width, count) <= buf.Length {
      Meaning(t, count, mem[..], buf[..]);
    }
    trace := TransferLoop(mem, buf, t, write, width, address, count);
    if IoImageFits(ap) {
      Image(ap, write, width, address0, count);
    }
  }

  /** Both directions of an unwrapped transfer. */
  lemma Meaning(t: Transfer, count: nat, mem: seq<u8>, buf: seq<u8>)
    requires t.Valid() && |mem| <= TWO64
    requires t.address + TargetExtent(t.width, count) <= |mem| && BufferExtent(t.width, count) <= |buf|
    ensures t.AllFit(count, |mem|, |buf|)
    ensures After(t, count, (mem, buf))
         == if t.write then (Patch(mem, t.address, Written(t.width, count, buf)), buf)
            else (mem, Patch(buf, 0, Received(t.width, count, t.address, mem)))
  {
    hide *;
    if t.write {
      WriteMeaning(t, count, mem, buf);
    } else {
      ReadMeaning(t, count, mem, buf);
    }
  }

  /** Where the window's image does not wrap, accepted accesses land in it. */
  lemma Image(ap: Apertures, write: bool, width: nat, address: u64, count: u64)
    requires IoImageFits(ap) && Acceptable(ap, IoOperation, width, address, count, false)
    ensures var t := IoTransfer(ap, write, width, address);
            && t.address == CpuIoBase(ap) + (address - ap.ioBase)
            && t.address + TargetExtent(width, count) <= TWO64
            && forall k :: 0 <= k < count ==>
                 CpuIoBase(ap) <= t.Element(k).address
                 && t.Element(k).address + t.Element(k).size - 1 <= CpuIoBase(ap) + (ap.ioLimit - ap.ioBase)
  {
    hide TargetExtent, ElementSize, ElementAccess;
    var t := IoTransfer(ap, write, width, address);
    WrapSum(ap.ioBase + ap.ioTranslation, address - ap.ioBase);
    AcceptedExtent(ap, IoOperation, width, address, count);
    ElementsWithin(t, count, CpuIoBase(ap), CpuIoBase(ap) + (ap.ioLimit - ap.ioBase));
  }

  /** A translation that is a multiple of the element size keeps elements aligned, and none straddles
      the end of the address space. */
  lemma IoElementsFit(ap: Apertures, write: bool, width: nat, address: u64, count: u64, bufLength: nat)
    requires Acceptable(ap, IoOperation, width, address, count, false) && BufferExtent(width, count) <= bufLength
    requires ap.ioTranslation % ElementSize(width) == 0
    ensures IoTransfer(ap, write, width, address).AllFit(count, TWO64, bufLength)
  {
    hide ElementSize, BufferExtent, ElementAccess, Wrap64;
    var t, size := IoTransfer(ap, write, width, address), ElementSize(width);
    forall k | 0 <= k < count ensures Fits(t.Element(k), TWO64, bufLength) {
      ElementFields(t, k);
      BufferPlace(width, count, k);
      AlignedSum(address, ap.ioTranslation, size);
      AlignedWord(address + ap.ioTranslation, size);
      ElementResidue(t, k);
      AlignedRoom(t.Element(k).address, size);
    }
  }

  /** All elements of a transfer stand equally far past an element boundary. */
  lemma ElementResidue(t: Transfer, k: nat)
    requires t.Valid()
    ensures t.Element(k).address % ElementSize(t.width) == t.address % ElementSize(t.width)
  {
    hide ElementSize, ElementAccess, Wrap64;
    var size := ElementSize(t.width);
    ElementFields(t, k);
    AlignedStep(t.address, size, k);
    AlignedWord(t.address + k * size, size);
    AlignedWord(t.address, size);
  }

  lemma BufferPlace(width: nat, count: nat, k: nat)
    requires width < WIDTH_MAXIMUM && k < count
    ensures (if Fill(width) then 0 else k * ElementSize(width)) + ElementSize(width) <= BufferExtent(width, count)
  {
    var size := ElementSize(width);
    assert k * size + size == (k + 1) * size <= count * size;
  }

  // ----- alignment to an element size

  /** A number that is d elements and r bytes is r bytes past an element boundary. */
  lemma Residue(y: int, d: int, r: int, size: nat)
    requires size in {1, 2, 4, 8} && y == d * size + r && 0 <= r < size
    ensures y % size == r
  {
    match size
    case 1 => assert y == d;
    case 2 => Residue2(y, d, r);
    case 4 => Residue4(y, d, r);
    case _ => Residue8(y, d, r);
  }

  lemma Residue2(y: int, d: int, r: int)
    requires y == d * 2 + r && 0 <= r < 2
    ensures y % 2 == r
  {
  }

  lemma Residue4(y: int, d: int, r: int)
    requires y == d * 4 + r && 0 <= r < 4
    ensures y % 4 == r
  {
  }

  lemma Residue8(y: int, d: int, r: int)
    requires y == d * 8 + r && 0 <= r < 8
    ensures y % 8 == r
  {
  }

  lemma AlignedStep(x: int, size: nat, k: int)
    requires size in {1, 2, 4, 8}
    ensures (x + k * size) % size == x % size
  {
    var d, r := x / size, x % size;
    assert x == d * size + r;
    assert x + k * size == (d + k) * size + r;
    Residue(x + k * size, d + k, r, size);
  }

  lemma AlignedSum(x: int, y: int, size: nat)
    requires size in {1, 2, 4, 8} && y % size == 0
    ensures (x + y) % size == x % size
  {
    AlignedStep(x, size, y / size);
    assert y == y / size * size;
  }

  /** Reduction modulo a whole number of elements keeps the residue. */
  lemma AlignedReduction(x: int, m: nat, size: nat)
    requires size in {1, 2, 4, 8} && m > 0 && m % size == 0
    ensures x % m % size == x % size
  {
    var c, q := m / size, x / m;
    assert m == c * size && x % m == x - q * m;
    assert q * m == (q * c) * size;
    AlignedStep(x, size, -(q * c));
    assert x + -(q * c) * size == x % m;
  }

  /** Wrapping keeps a number's residue. */
  lemma AlignedWord(x: int, size: nat)
    requires size in {1, 2, 4, 8}
    ensures Wrap64(x) % size == x % size
  {
    AlignedReduction(x, TWO64, size);
  }

  /** An aligned word leaves room for its element. */
  lemma AlignedRoom(x: u64, size: nat)
    requires size in {1, 2, 4, 8} && x % size == 0
    ensures x + size <= TWO64
  {
  }

  // ----- configuration space

  const ECAM_SIZE: nat := 0x1000_0000

  /** PCI_LIB_ADDRESS: the 4 KiB page of a function, and a register in it. */
  function PciLibAddress(bus: nat, device: nat, fn: nat, register: nat): nat {
    bus % 256 * 0x10_0000 + device % 32 * 0x8000 + fn % 8 * 0x1000 + register % 0x1000
  }

  lemma PageOf(bus: u8, device: u8, fn: u8, register: nat)
    requires register < 0x1000
    ensures PciLibAddress(bus, device, fn, register) == PciLibAddress(bus, device, fn, 0) + register
    ensures PciLibAddress(bus, device, fn, 0) + 0x1000 <= ECAM_SIZE
  {
  }

  /** The fields of a configuration address: bus from bit 20, device from bit 15, function from bit 12 on. */
  lemma ConfigFields(bus: u8, device: u8, fn: u8, register: nat)
    requires device < 32 && fn < 8 && register < 0x1000
    ensures var a := PciLibAddress(bus, device, fn, register);
            a / 0x10_0000 == bus && a / 0x8000 % 32 == device && a / 0x1000 % 8 == fn && a % 0x1000 == register
  {
    var a := PciLibAddress(bus, device, fn, register);
    assert a == bus * 0x10_0000 + device * 0x8000 + fn * 0x1000 + register;
    hide PciLibAddress;
    UniqueQuotient(a, bus, device * 0x8000 + fn * 0x1000 + register, 0x10_0000);
    UniqueQuotient(a, bus * 32 + device, fn * 0x1000 + register, 0x8000);
    UniqueQuotient(bus * 32 + device, bus, device, 32);
    UniqueQuotient(a, bus * 256 + device * 8 + fn, register, 0x1000);
    UniqueQuotient(bus * 256 + device * 8 + fn, bus * 32 + device, fn, 8);
  }

  /** RootBridgeIoPciRW: a transfer that is accepted starts at the addressed bus, device, function and
      register, and stays in that function's page. */
  method PciRW(ap: Apertures, config: array<u8>, buf: array?<u8>, write: bool, width: u32, address: u64, count: u64)
    returns (status: EfiStatus, ghost trace: seq<Access>)
    requires config.Length == ECAM_SIZE && config != buf
    requires buf != null && width < WIDTH_MAXIMUM ==> BufferExtent(width, count) <= buf.Length
    modifies config, buf
    ensures status == Success <==> Acceptable(ap, PciOperation, width, address, count, buf == null)
    ensures status != Success ==>
      trace == [] && config[..] == old(config[..]) && (buf != null ==> buf[..] == old(buf[..]))
    ensures status == Success && count > 0 ==>
      && |trace| == count
      && var a := trace[0].address;
      && a / 0x10_0000 == address / 0x100_0000 % 256 && a / 0x8000 % 32 == address / 0x1_0000 % 256
      && a / 0x1000 % 8 == address / 0x100 % 256
      && a % 0x1000 == if address / 0x1_0000_0000 != 0 then address / 0x1_0000_0000 else address % 256
    ensures status == Success ==>
      var p := AsPciAddress(address);
      var page := PciLibAddress(p.bus, p.device, p.fn, 0);
      && TraceWithin(trace, page, page + 0xFFF)
      && page + RegisterOf(p) + TargetExtent(width, count) <= page + 0x1000 <= config.Length
      && if write then
           config[..] == old(Patch(config[..], page + RegisterOf(p), Written(width, count, buf[..]))) && buf[..] == old(buf[..])
         else
           config[..] == old(config[..]) && buf[..] == old(Patch(buf[..], 0, Received(width, count, page + RegisterOf(p), config[..])))
  {
    hide Written, Received, Patch, BufferExtent, TargetExtent, ElementSize;
    trace := [];
    status := CheckParameter(ap, PciOperation, width, address, count, buf == null);
    if status.IsError() {
      return;
    }
    var p := AsPciAddress(address);
    var pcieRegAddr := PciLibAddress(p.bus, p.device, p.fn, if p.extended != 0 then p.extended else p.register);
    ghost var page := PciLibAddress(p.bus, p.device, p.fn, 0);
    assert InWindow(ap, PciOperation, width, address, count) && p == AsPciAddress(address);
    PageOf(p.bus, p.device, p.fn, RegisterOf(p));
    ConfigFields(p.bus, p.device, p.fn, RegisterOf(p));
    hide PciLibAddress;
    AcceptedExtent(ap, PciOperation, width, address, count);
    trace := Deliver(config, buf, write, width, pcieRegAddr, count, page, page + 0xFFF);
  }

  /** The address an accepted configuration access starts at. */
  function ConfigStart(address: u64): u64 {
    var p := AsPciAddress(address);
    PciLibAddress(p.bus, p.device, p.fn, RegisterOf(p))
  }

  /** The alignment test looks at the packed address, whose low byte is the short register.  So the
      elements of an accepted configuration access are aligned if and only if the extended register
      is; zero, which selects the short register, is. */
  lemma PciAccessAlignedIff(ap: Apertures, write: bool, width: nat, address: u64, count: u64)
    requires Acceptable(ap, PciOperation, width, address, count, false)
    ensures (forall k :: 0 <= k < count ==>
               Transfer(write, width, ConfigStart(address)).Element(k).address % ElementSize(width) == 0)
       <==> count == 0 || AsPciAddress(address).extended % ElementSize(width) == 0
  {
    hide Acceptable, AsPciAddress, RegisterOf, ElementSize, ElementAccess, PciLibAddress;
    var p, size := AsPciAddress(address), ElementSize(width);
    var t := Transfer(write, width, ConfigStart(address));
    AcceptedConfig(ap, width, address, count);
    AlignedReduction(address, 256, size);
    ConfigResidue(p, size);
    forall k | 0 <= k < count
      ensures t.Element(k).address % size == RegisterOf(p) % size
    {
      ElementResidue(t, k);
    }
    if count > 0 {
      assert t.Element(0).address % size == RegisterOf(p) % size;
    }
  }

  lemma AcceptedConfig(ap: Apertures, width: nat, address: u64, count: u64)
    requires Acceptable(ap, PciOperation, width, address, count, false)
    ensures var p := AsPciAddress(address);
            && width < WIDTH_MAXIMUM && address % ElementSize(width) == 0
            && p.register == address % 256 && RegisterOf(p) < 0x1000
            && RegisterOf(p) == if p.extended != 0 then p.extended else p.register
  {
    hide ElementSize;
  }

  lemma ConfigResidue(p: PciAddress, size: nat)
    requires size in {1, 2, 4, 8} && RegisterOf(p) < 0x1000
    ensures PciLibAddress(p.bus, p.device, p.fn, RegisterOf(p)) % size == RegisterOf(p) % size
  {
    PageOf(p.bus, p.device, p.fn, RegisterOf(p));
    var page := PciLibAddress(p.bus, p.device, p.fn, 0);
    assert page == (p.bus * 0x100 + p.device % 32 * 8 + p.fn % 8) * 0x1000;
    hide PciLibAddress, RegisterOf;
    AlignedPage(p.bus * 0x100 + p.device % 32 * 8 + p.fn % 8, size);
    AlignedSum(RegisterOf(p), page, size);
  }

  lemma AlignedPage(n: int, size: nat)
    requires size in {1, 2, 4, 8}
    ensures n * 0x1000 % size == 0
  {
    if size == 1 {
      Residue(n * 0x1000, n * 0x1000, 0, 1);
    } else if size == 2 {
      Residue(n * 0x1000, n * 0x800, 0, 2);
    } else if size == 4 {
      Residue(n * 0x1000, n * 0x400, 0, 4);
    } else {
      Residue(n * 0x1000, n * 0x200, 0, 8);
    }
  }

  /** A two-byte access to extended register 0x101 of the first function is accepted. */
  lemma MisalignedConfigAccess(write: bool)
    ensures var ap, address := Apertures(0, 0, 0, 0, 0, 0, 0), 0x101_0000_0000;
            && Acceptable(ap, PciOperation, 1, address, 1, false)
            && Transfer(write, 1, ConfigStart(address)).Element(0).address == 0x101
  {
    assert AsPciAddress(0x101_0000_0000) == PciAddress(0, 0, 0, 0, 0x101);
    assert PciLibAddress(0, 0, 0, 0x101) == 0x101;
    hide AsPciAddress, PciLibAddress;
  }
}
