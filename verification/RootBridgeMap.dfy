/** RootBridgeIoMap and RootBridgeIoUnmap: DMA through bounce buffers below 4 GB, over any
    interleaving of calls.  The pool and page allocators answer through parameters. */
module RootBridgeMap {
  import opened Words
  import opened Efi
  import opened RootBridgeIo
  import opened RootBridgeCopy

  const FOUR_GB: int := 0x1_0000_0000
  const PAGE_SIZE: nat := 4096

  // EFI_PCI_ROOT_BRIDGE_IO_PROTOCOL_OPERATION
  const BUS_MASTER_READ: int := 0
  const BUS_MASTER_WRITE: int := 1
  const BUS_MASTER_COMMON_BUFFER: int := 2
  const BUS_MASTER_READ64: int := 3
  const BUS_MASTER_WRITE64: int := 4
  const BUS_MASTER_COMMON_BUFFER64: int := 5
  const OPERATION_MAXIMUM: int := 6

  predicate IsRead(op: u32) { op == BUS_MASTER_READ || op == BUS_MASTER_READ64 }
  predicate IsWrite(op: u32) { op == BUS_MASTER_WRITE || op == BUS_MASTER_WRITE64 }
  predicate IsCommon(op: u32) { op == BUS_MASTER_COMMON_BUFFER || op == BUS_MASTER_COMMON_BUFFER64 }

  datatype MapInfo = MapInfo(operation: u32, numberOfBytes: u64, numberOfPages: nat, hostAddress: u64, mappedHostAddress: u64)

  /** pages: every page number that is allocated; maps: live MAP_INFO structures by address. */
  datatype Dma = Dma(pages: set<nat>, maps: map<nat, MapInfo>)

  function SizeToPages(n: nat): nat {
    n / PAGE_SIZE + if n % PAGE_SIZE != 0 then 1 else 0
  }

  /** The pages first, ..., first + n - 1. */
  function PageSpan(first: nat, n: nat): (s: set<nat>)
    ensures forall p :: p in s <==> first <= p < first + n
  {
    if n == 0 then {} else PageSpan(first, n - 1) + {first + n - 1}
  }

  function BouncePages(m: MapInfo): set<nat> {
    PageSpan(m.mappedHostAddress / PAGE_SIZE, m.numberOfPages)
  }

  /** AllocatePages with AllocateMaxAddress and 0xffffffff may hand out n pages from `first`. */
  predicate Grantable(d: Dma, first: nat, n: nat) {
    n > 0 && (first + n) * PAGE_SIZE - 1 <= 0xffff_ffff && PageSpan(first, n) !! d.pages
  }

  /** True if the transfer is sent through a bounce buffer: the sum is a 64-bit word. */
  predicate Bounced(host: u64, n: u64) {
    Wrap64(host + n) > FOUR_GB
  }

  /** What an allocator answers: an address (of pool memory, or a page number) or its own status.  An
      address its contract forbids counts as a failure. */
  datatype Reply = Address(value: nat) | Failure(status: EfiStatus)

  function FailureStatus(reply: Reply): (st: EfiStatus)
    ensures st.IsError()
  {
    if reply.Failure? && reply.status.IsError() then reply.status else OutOfResources
  }

  /** AllocatePool finds memory that no live MAP_INFO occupies. */
  predicate PoolGranted(d: Dma, pool: Reply) {
    pool.Address? && pool.value !in d.maps
  }

  predicate PagesGranted(d: Dma, first: Reply, n: nat) {
    first.Address? && Grantable(d, first.value, n)
  }

  /** numberOfBytes is the in-out parameter on return. */
  datatype MapResult = MapResult(status: EfiStatus, deviceAddress: u64, mapping: Option<nat>, numberOfBytes: u64)

  /** Effect of Map on the allocators; host is a non-NULL address, pool and first the replies of
      AllocatePool and AllocatePages.  When the latter fails, Mapping is left pointing at the MAP_INFO
      that was allocated for it and freed again. */
  function MapStep(d: Dma, op: u32, host: u64, n: u64, pool: Reply, first: Reply): (Dma, MapResult) {
    if op >= OPERATION_MAXIMUM then (d, MapResult(InvalidParameter, 0, None, n))
    else if !Bounced(host, n) then (d, MapResult(Success, host, None, n))
    else if IsCommon(op) then (d, MapResult(Unsupported, 0, None, n))
    else if !PoolGranted(d, pool) then (d, MapResult(FailureStatus(pool), 0, None, 0))
    else if !PagesGranted(d, first, SizeToPages(n)) then (d, MapResult(FailureStatus(first), 0, Some(pool.value), 0))
    else
      var m := MapInfo(op, n, SizeToPages(n), host, first.value * PAGE_SIZE);
      (Dma(d.pages + BouncePages(m), d.maps[pool.value := m]), MapResult(Success, m.mappedHostAddress, Some(pool.value), n))
  }

  /** Memory after Map: for a bus master that reads, the bounce buffer receives the host bytes. */
  function MapMemory(mem: seq<u8>, d: Dma, op: u32, host: u64, n: u64, pool: Reply, first: Reply): (m: seq<u8>)
    requires FOUR_GB <= |mem| && host + n <= |mem|
    ensures |m| == |mem|
  {
    var r := MapStep(d, op, host, n, pool, first).1;
    if r.status.Success? && r.mapping.Some? && IsRead(op) then
      BytesFitPages(n);
      Moved(mem, r.deviceAddress, host, n)
    else mem
  }

  /** Where Unmap copies: both ranges of the mapping lie in memory. */
  predicate RangesFit(m: MapInfo, length: nat) {
    m.hostAddress + m.numberOfBytes <= length && m.mappedHostAddress + m.numberOfBytes <= length
  }

  /** Memory after Unmap: for a bus master that writes, the host range receives the bounce buffer. */
  function UnmapMemory(mem: seq<u8>, d: Dma, mapping: Option<nat>): (r: seq<u8>)
    requires mapping.Some? ==> mapping.value in d.maps && RangesFit(d.maps[mapping.value], |mem|)
    ensures |r| == |mem|
  {
    if mapping.Some? && IsWrite(d.maps[mapping.value].operation) then
      var m := d.maps[mapping.value];
      Moved(mem, m.hostAddress, m.mappedHostAddress, m.numberOfBytes)
    else mem
  }

  function UnmapStep(d: Dma, mapping: Option<nat>): Dma
    requires mapping.Some? ==> mapping.value in d.maps
  {
    if mapping.None? then d
    else Dma(d.pages - BouncePages(d.maps[mapping.value]), d.maps - {mapping.value})
  }

  // ----- the invariant over every run

  predicate MapInfoOk(m: MapInfo) {
    && m.mappedHostAddress % PAGE_SIZE == 0
    && m.numberOfPages == SizeToPages(m.numberOfBytes) > 0
    && m.mappedHostAddress + m.numberOfPages * PAGE_SIZE <= FOUR_GB
  }

  /** Live bounce buffers lie below 4 GB in allocated pages and do not share a page; every page is
      either one of `others` (allocated before, by anyone) or part of a live bounce buffer. */
  ghost predicate Inv(d: Dma, others: set<nat>) {
    && (forall h :: h in d.maps ==> MapInfoOk(d.maps[h]))
    && (forall h :: h in d.maps ==> BouncePages(d.maps[h]) <= d.pages && BouncePages(d.maps[h]) !! others)
    && (forall h, k :: h in d.maps && k in d.maps && h != k ==> BouncePages(d.maps[h]) !! BouncePages(d.maps[k]))
    && others <= d.pages
    && (forall p :: p in d.pages ==> p in others || exists h :: h in d.maps && p in BouncePages(d.maps[h]))
  }

  /** Entering a mapping whose pages were free. */
  lemma AddKeepsInv(d: Dma, others: set<nat>, h0: nat, m: MapInfo)
    requires Inv(d, others) && h0 !in d.maps && MapInfoOk(m) && BouncePages(m) !! d.pages
    ensures Inv(Dma(d.pages + BouncePages(m), d.maps[h0 := m]), others)
  {
    hide BouncePages, MapInfoOk;
    var d' := Dma(d.pages + BouncePages(m), d.maps[h0 := m]);
    forall p | p in d'.pages && p !in others
      ensures exists h :: h in d'.maps && p in BouncePages(d'.maps[h])
    {
      if p in d.pages {
        var h :| h in d.maps && p in BouncePages(d.maps[h]);
        assert h in d'.maps && d'.maps[h] == d.maps[h];
      } else {
        assert h0 in d'.maps && p in BouncePages(d'.maps[h0]);
      }
    }
  }

  lemma MapKeepsInv(d: Dma, others: set<nat>, op: u32, host: u64, n: u64, pool: Reply, first: Reply)
    requires Inv(d, others)
    ensures Inv(MapStep(d, op, host, n, pool, first).0, others)
  {
    hide Inv;
    if op < OPERATION_MAXIMUM && Bounced(host, n) && !IsCommon(op) && PoolGranted(d, pool)
       && PagesGranted(d, first, SizeToPages(n)) {
      AddKeepsInv(d, others, pool.value, MapInfo(op, n, SizeToPages(n), host, first.value * PAGE_SIZE));
    }
  }

  lemma UnmapKeepsInv(d: Dma, others: set<nat>, mapping: Option<nat>)
    requires Inv(d, others) && (mapping.Some? ==> mapping.value in d.maps)
    ensures Inv(UnmapStep(d, mapping), others)
  {
    hide BouncePages, MapInfoOk;
    if mapping.Some? {
      var d', h0 := UnmapStep(d, mapping), mapping.value;
      assert forall h :: h in d'.maps ==> h != h0 && h in d.maps && d'.maps[h] == d.maps[h];
      forall p | p in d'.pages && p !in others
        ensures exists h :: h in d'.maps && p in BouncePages(d'.maps[h])
      {
        var h :| h in d.maps && p in BouncePages(d.maps[h]);
        assert h in d'.maps;
      }
    }
  }

  datatype Event =
    | MapEvent(op: u32, host: u64, n: u64, pool: Reply, first: Reply)
    | UnmapEvent(mapping: Option<nat>)

  /** A caller unmaps only what Map returned and was not unmapped since. */
  predicate Callable(d: Dma, e: Event) {
    e.UnmapEvent? && e.mapping.Some? ==> e.mapping.value in d.maps
  }

  /** A caller may hand the Mapping that a call left behind to Unmap, whatever the status, except
      precisely when the bounce pages were refused after the MAP_INFO had been granted: then Mapping
      points at memory that is free again. */
  lemma MappingMayBeUnmappedIff(d: Dma, op: u32, host: u64, n: u64, pool: Reply, first: Reply)
    ensures var (d', r) := MapStep(d, op, host, n, pool, first);
            Callable(d', UnmapEvent(r.mapping))
            <==> !(&& op < OPERATION_MAXIMUM && Bounced(host, n) && !IsCommon(op)
                   && PoolGranted(d, pool) && !PagesGranted(d, first, SizeToPages(n)))
  {
    hide SizeToPages, Bounced, Grantable, FailureStatus, BouncePages;
  }

  function Step(d: Dma, e: Event): Dma
    requires Callable(d, e)
  {
    match e
    case MapEvent(op, host, n, pool, first) => MapStep(d, op, host, n, pool, first).0
    case UnmapEvent(mapping) => UnmapStep(d, mapping)
  }

  /** d' is reachable from d by these calls. */
  ghost predicate Reaches(d: Dma, es: seq<Event>, d': Dma)
    decreases |es|
  {
    if es == [] then d' == d
    else Callable(d, es[0]) && Reaches(Step(d, es[0]), es[1..], d')
  }

  lemma {:induction false} ReachableInv(d: Dma, others: set<nat>, es: seq<Event>, d': Dma)
    requires Inv(d, others) && Reaches(d, es, d')
    ensures Inv(d', others)
    decreases |es|
  {
    if es != [] {
      match es[0] {
        case MapEvent(op, host, n, pool, first) => MapKeepsInv(d, others, op, host, n, pool, first);
        case UnmapEvent(mapping) => UnmapKeepsInv(d, others, mapping);
      }
      ReachableInv(Step(d, es[0]), others, es[1..], d');
    }
  }

  /** The two mapped byte ranges do not overlap. */
  predicate ByteDisjoint(a: MapInfo, b: MapInfo) {
    || a.mappedHostAddress + a.numberOfBytes <= b.mappedHostAddress
    || b.mappedHostAddress + b.numberOfBytes <= a.mappedHostAddress
  }

  predicate EndsBelowFourGb(m: MapInfo) {
    m.mappedHostAddress + m.numberOfBytes <= FOUR_GB
  }

  /** After any interleaving of Map and Unmap: two live bounce buffers never share a byte, both
      end at or below 4 GB, and once nothing is mapped the page allocator is back to its start. */
  lemma BounceBuffersOverRuns(others: set<nat>, es: seq<Event>, d: Dma)
    requires Reaches(Dma(others, map[]), es, d)
    ensures forall h :: h in d.maps ==> EndsBelowFourGb(d.maps[h])
    ensures forall h, k :: h in d.maps && k in d.maps && h != k ==> ByteDisjoint(d.maps[h], d.maps[k])
    ensures d.maps == map[] ==> d.pages == others
  {
    ReachableInv(Dma(others, map[]), others, es, d);
    hide BouncePages, MapInfoOk, ByteDisjoint, EndsBelowFourGb, Reaches;
    forall h | h in d.maps
      ensures EndsBelowFourGb(d.maps[h])
    {
      MappingEndsBelowFourGb(d.maps[h]);
    }
    forall h, k | h in d.maps && k in d.maps && h != k
      ensures ByteDisjoint(d.maps[h], d.maps[k])
    {
      DisjointPages(d.maps[h], d.maps[k]);
    }
  }

  lemma MappingEndsBelowFourGb(m: MapInfo)
    requires MapInfoOk(m)
    ensures EndsBelowFourGb(m)
  {
    BytesFitPages(m.numberOfBytes);
  }

  /** Page-aligned buffers that share no page share no byte. */
  lemma DisjointPages(a: MapInfo, b: MapInfo)
    requires MapInfoOk(a) && MapInfoOk(b) && BouncePages(a) !! BouncePages(b)
    ensures ByteDisjoint(a, b)
  {
    var p, q := a.mappedHostAddress / PAGE_SIZE, b.mappedHostAddress / PAGE_SIZE;
    assert p in BouncePages(a) && q in BouncePages(b);
    BytesFitPages(a.numberOfBytes);
    BytesFitPages(b.numberOfBytes);
  }

  lemma BytesFitPages(n: nat)
    ensures n <= SizeToPages(n) * PAGE_SIZE < n + PAGE_SIZE
  {
  }

  // ----- the services, on memory

  /** What Map answers for a host address, and what it makes of the allocators: below 4 GB every operation
      gets the address itself; above, common buffers are refused, and the others get whole pages below 4 GB
      if and only if both allocators grant. */
  predicate MapAnswer(op: u32, host: u64, n: u64, pool: Reply, first: Reply, before: Dma, after: Dma, r: MapResult)
    requires host + n <= TWO64
  {
    var k := (n + 4095) / 4096;
    if op >= 6 then r == MapResult(InvalidParameter, 0, None, n) && after == before
    else if host + n <= 0x1_0000_0000 || host + n == TWO64 then r == MapResult(Success, host, None, n) && after == before
    else if op in {2, 5} then r == MapResult(Unsupported, 0, None, n) && after == before
    else if pool.Address? && pool.value !in before.maps && first.Address? && k > 0 && first.value + k <= 0x10_0000
            && PageSpan(first.value, k) !! before.pages then
      && r.status == Success && r.deviceAddress == first.value * 4096 && r.mapping == Some(pool.value) && r.numberOfBytes == n
      && after.pages == before.pages + PageSpan(first.value, k)
      && after.maps == before.maps[pool.value := MapInfo(op, n, k, host, first.value * 4096)]
    else
      && r.status.IsError() && r.deviceAddress == 0 && r.numberOfBytes == 0 && after == before
      && (pool.Failure? && pool.status.IsError() ==> r.status == pool.status)
      && (pool.Address? && pool.value !in before.maps && first.Failure? && first.status.IsError() ==> r.status == first.status)
  }

  /** The PCI root bridge's view of host memory and of the boot-services allocators. */
  class DmaService {
    const mem: array<u8>
    var pages: set<nat>
    var maps: map<nat, MapInfo>

    constructor (mem: array<u8>, pages: set<nat>)
      ensures this.mem == mem && Abs() == Dma(pages, map[])
    {
      this.mem, this.pages, this.maps := mem, pages, map[];
    }

    function Abs(): Dma
      reads this
    {
      Dma(pages, maps)
    }

    /** RootBridgeIoMap; hostAddress None is a NULL pointer.  Below 4 GB every operation gets the host address
        itself, and nothing changes.  Above, common buffers are refused, and the others succeed if and only
        if both allocators grant.  A bus master that reads finds, at the device address, the host bytes as of
        this call; nothing outside the new bounce buffer changes. */
    method Map(operation: u32, hostAddress: Option<u64>, numberOfBytes: u64, pool: Reply, first: Reply)
      returns (r: MapResult)
      requires mem.Length <= TWO64
      requires hostAddress.Some? ==> hostAddress.value + numberOfBytes <= mem.Length
      requires FOUR_GB <= mem.Length
      modifies this, mem
      ensures hostAddress.None? || operation >= 6 ==>
        && r.status == InvalidParameter && r.mapping.None? && r.numberOfBytes == numberOfBytes
        && pages == old(pages) && maps == old(maps)
      ensures hostAddress.Some? ==>
        MapAnswer(operation, hostAddress.value, numberOfBytes, pool, first, old(Abs()), Abs(), r)
      ensures r.status != Success || r.mapping.None? ==> pages == old(pages) && maps == old(maps) && mem[..] == old(mem[..])
      ensures hostAddress.Some? ==>
        (Abs(), r) == MapStep(old(Abs()), operation, hostAddress.value, numberOfBytes, pool, first)
      ensures hostAddress.Some? ==>
        mem[..] == MapMemory(old(mem[..]), old(Abs()), operation, hostAddress.value, numberOfBytes, pool, first)
      ensures r.status != Success ==> mem[..] == old(mem[..])
      ensures r.status == Success ==>
        forall a :: 0 <= a < mem.Length && !(r.deviceAddress <= a < r.deviceAddress + numberOfBytes) ==>
          mem[a] == old(mem[a])
      ensures r.status == Success ==>
        && (r.deviceAddress + numberOfBytes <= FOUR_GB <==> hostAddress.value + numberOfBytes < TWO64)
        && r.deviceAddress + numberOfBytes <= mem.Length
        && (operation in {0, 3} ==>
              mem[r.deviceAddress..r.deviceAddress + numberOfBytes]
              == old(mem[hostAddress.value..hostAddress.value + numberOfBytes]))
        && (r.mapping.None? || operation !in {0, 3} ==> mem[..] == old(mem[..]))
      ensures forall a :: 0 <= a < mem.Length && a / PAGE_SIZE in old(pages) ==> mem[a] == old(mem[a])
    {
      if hostAddress.None? {
        return MapResult(InvalidParameter, 0, None, numberOfBytes);
      }
      hide MapStep, MapMemory, MapAnswer;
      MapAnswers(Abs(), operation, hostAddress.value, numberOfBytes, pool, first);
      MapIdle(mem[..], Abs(), operation, hostAddress.value, numberOfBytes, pool, first);
      MapMeans(mem[..], Abs(), operation, hostAddress.value, numberOfBytes, pool, first);
      r := MapAddress(operation, hostAddress.value, numberOfBytes, pool, first);
    }

    /** Map behind its check for NULL pointers. */
    method MapAddress(operation: u32, physicalAddress: u64, numberOfBytes: u64, pool: Reply, first: Reply)
      returns (r: MapResult)
      requires FOUR_GB <= mem.Length <= TWO64 && physicalAddress + numberOfBytes <= mem.Length
      modifies this, mem
      ensures (Abs(), r) == MapStep(old(Abs()), operation, physicalAddress, numberOfBytes, pool, first)
      ensures mem[..] == MapMemory(old(mem[..]), old(Abs()), operation, physicalAddress, numberOfBytes, pool, first)
    {
      hide PageSpan, Moved, SizeToPages, BouncePages, FailureStatus, Grantable;
      if operation >= OPERATION_MAXIMUM {
        return MapResult(InvalidParameter, 0, None, numberOfBytes);
      }
      if Wrap64(physicalAddress + numberOfBytes) > FOUR_GB {
        if IsCommon(operation) {
          return MapResult(Unsupported, 0, None, numberOfBytes);
        }
        if !PoolGranted(Abs(), pool) {
          return MapResult(FailureStatus(pool), 0, None, 0);
        }
        var mapping := Some(pool.value);
        var n := SizeToPages(numberOfBytes);
        if !PagesGranted(Abs(), first, n) {
          return MapResult(FailureStatus(first), 0, mapping, 0);
        }
        GrantedBelow(Abs(), first.value, n);
        var mapInfo := MapInfo(operation, numberOfBytes, n, physicalAddress, first.value * PAGE_SIZE);
        FreshBounce(Abs(), mapInfo);
        pages, maps := pages + BouncePages(mapInfo), maps[pool.value := mapInfo];
        if IsRead(operation) {
          CopyBytes(mem, mapInfo.mappedHostAddress, mapInfo.hostAddress, numberOfBytes);
        }
        r := MapResult(Success, mapInfo.mappedHostAddress, mapping, numberOfBytes);
      } else {
        r := MapResult(Success, physicalAddress, None, numberOfBytes);
      }
    }

    /** RootBridgeIoUnmap: for a bus master that writes, the host range becomes the mapped buffer
        as the device left it; the pages and the MAP_INFO are released. */
    method Unmap(mapping: Option<nat>)
      requires mapping.Some? ==> mapping.value in maps
      requires mapping.Some? ==> RangesFit(maps[mapping.value], mem.Length)
      modifies this, mem
      ensures Abs() == UnmapStep(old(Abs()), mapping)
      ensures mapping.None? ==> pages == old(pages) && maps == old(maps)
      ensures mapping.Some? ==>
        var m := old(maps)[mapping.value];
        pages == old(pages) - PageSpan(m.mappedHostAddress / 4096, m.numberOfPages) && maps == old(maps) - {mapping.value}
      ensures mem[..] == UnmapMemory(old(mem[..]), old(Abs()), mapping)
      ensures mapping.Some? && old(maps)[mapping.value].operation in {1, 4} ==>
        var m := old(maps)[mapping.value];
        && mem[m.hostAddress..m.hostAddress + m.numberOfBytes]
           == old(mem[..])[m.mappedHostAddress..m.mappedHostAddress + m.numberOfBytes]
        && forall a :: 0 <= a < mem.Length && !(m.hostAddress <= a < m.hostAddress + m.numberOfBytes) ==>
             mem[a] == old(mem[a])
      ensures mapping.None? || old(maps)[mapping.value].operation !in {1, 4} ==> mem[..] == old(mem[..])
    {
      hide Moved, PageSpan;
      if mapping.Some? {
        var mapInfo := maps[mapping.value];
        if IsWrite(mapInfo.operation) {
          CopyBytes(mem, mapInfo.hostAddress, mapInfo.mappedHostAddress, mapInfo.numberOfBytes);
        }
        pages, maps := pages - BouncePages(mapInfo), maps - {mapping.value};
      }
    }
  }

  lemma PagesOf(n: nat)
    ensures SizeToPages(n) == (n + 4095) / 4096
  {
  }

  lemma MapAnswers(d: Dma, op: u32, host: u64, n: u64, pool: Reply, first: Reply)
    requires host + n <= TWO64
    ensures var (d', r) := MapStep(d, op, host, n, pool, first);
            MapAnswer(op, host, n, pool, first, d, d', r)
  {
    PagesOf(n);
    hide PageSpan, SizeToPages;
  }

  lemma MapIdle(mem: seq<u8>, d: Dma, op: u32, host: u64, n: u64, pool: Reply, first: Reply)
    requires FOUR_GB <= |mem| && host + n <= |mem|
    ensures var (d', r) := MapStep(d, op, host, n, pool, first);
            r.status != Success || r.mapping.None? ==> d' == d && MapMemory(mem, d, op, host, n, pool, first) == mem
  {
    hide Moved, PageSpan, SizeToPages, FailureStatus, Grantable;
  }

  /** What a Map call makes of memory, for its caller. */
  lemma MapMeans(mem: seq<u8>, d: Dma, op: u32, host: u64, n: u64, pool: Reply, first: Reply)
    requires FOUR_GB <= |mem| <= TWO64 && host + n <= |mem|
    ensures var r := MapStep(d, op, host, n, pool, first).1;
            var m := MapMemory(mem, d, op, host, n, pool, first);
            && (r.status != Success ==> m == mem)
            && (forall a :: 0 <= a < |mem| && a / PAGE_SIZE in d.pages ==> m[a] == mem[a])
            && (r.status == Success ==>
                  && (r.deviceAddress + n <= FOUR_GB <==> host + n < TWO64)
                  && r.deviceAddress + n <= |mem|
                  && (forall a :: 0 <= a < |mem| && !(r.deviceAddress <= a < r.deviceAddress + n) ==> m[a] == mem[a])
                  && (IsRead(op) ==> m[r.deviceAddress..r.deviceAddress + n] == mem[host..host + n])
                  && (r.mapping.None? || !IsRead(op) ==> m == mem))
  {
    hide PageSpan, SizeToPages, BouncePages, FailureStatus, Grantable;
    if op < OPERATION_MAXIMUM && Bounced(host, n) && !IsCommon(op) && PoolGranted(d, pool)
       && PagesGranted(d, first, SizeToPages(n)) {
      GrantedBelow(d, first.value, SizeToPages(n));
      FreshBounce(d, MapInfo(op, n, SizeToPages(n), host, first.value * PAGE_SIZE));
    }
  }

  /** CopyMem of the base library, overlap allowed. */
  method CopyBytes(mem: array<u8>, dst: nat, src: nat, n: nat)
    requires dst + n <= mem.Length && src + n <= mem.Length
    modifies mem
    ensures mem[..] == Moved(old(mem[..]), dst, src, n)
    ensures mem[dst..dst + n] == old(mem[..])[src..src + n]
    ensures forall a :: 0 <= a < mem.Length && !(dst <= a < dst + n) ==> mem[a] == old(mem[a])
  {
    forall k | 0 <= k < n {
      mem[dst + k] := mem[src + k];
    }
    assert mem[..] == Moved(old(mem[..]), dst, src, n);
  }

  lemma GrantedBelow(d: Dma, first: nat, n: nat)
    requires Grantable(d, first, n)
    ensures first * PAGE_SIZE < FOUR_GB
  {
  }

  /** A granted bounce buffer lies below 4 GB and touches no page allocated before. */
  lemma FreshBounce(d: Dma, m: MapInfo)
    requires m.mappedHostAddress % PAGE_SIZE == 0 && m.numberOfPages == SizeToPages(m.numberOfBytes)
    requires Grantable(d, m.mappedHostAddress / PAGE_SIZE, m.numberOfPages)
    ensures EndsBelowFourGb(m)
    ensures forall a: int :: m.mappedHostAddress <= a < m.mappedHostAddress + m.numberOfBytes ==>
      a / PAGE_SIZE !in d.pages
  {
    BytesFitPages(m.numberOfBytes);
    forall a: int | m.mappedHostAddress <= a < m.mappedHostAddress + m.numberOfBytes
      ensures a / PAGE_SIZE !in d.pages
    {
      assert a / PAGE_SIZE in BouncePages(m);
    }
  }
}
