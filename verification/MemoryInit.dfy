/** MemoryPeim over the HOB list itself, and InitializeMemory's choice of the UEFI memory region. */
module MemoryInit {
  import opened Words
  import opened Efi
  import opened MemoryMap

  /** The resource descriptors of the HOB list, in list order; new ones go to its end. */
  class HobList {
    var hobs: seq<Hob>

    constructor (hobs: seq<Hob>)
      ensures this.hobs == hobs
    {
      this.hobs := hobs;
    }

    method BuildResourceDescriptorHob(kind: u32, attributes: u32, start: u64, length: u64)
      modifies this
      ensures hobs == old(hobs) + [Hob(kind, attributes, start, length)]
    {
      hobs := hobs + [Hob(kind, attributes, start, length)];
    }

    /** The first loop of MemoryPeim. */
    method DeclareMainMemory(p: Platform)
      modifies this
      ensures hobs == Declare(p, old(hobs))
      ensures hobs == old(hobs) || hobs == old(hobs) + [Hob(0, 0x3C07, p.memBase, p.memSize)]
      ensures hobs == old(hobs)
              <==> exists i :: 0 <= i < |old(hobs)| && EndsByMainMemory(p, old(hobs)[i])
    {
      var found, next := false, 0;
      while next < |hobs|
        invariant next <= |hobs| && hobs == old(hobs) && !found
        invariant forall k :: 0 <= k < next ==> !IsMain(p, hobs[k])
      {
        if hobs[next].kind == SYSTEM_MEMORY && p.memBase >= hobs[next].start && hobs[next].Top() <= p.MemTop() {
          assert IsMain(p, hobs[next]);
          found := true;
          break;
        }
        next := next + 1;
      }
      if !found {
        BuildResourceDescriptorHob(SYSTEM_MEMORY, MAIN_ATTRIBUTES, p.memBase, p.memSize);
      }
    }

    /** Carves the firmware out of the HOB at position i. */
    method CarveFirmware(p: Platform, i: nat)
      requires i < |hobs| && HoldsFirmware(p, hobs[i])
      modifies this
      ensures hobs == CarveAt(p, old(hobs), i)
    {
      var resource := hobs[i];
      var resourceTop := resource.Top();
      if p.fdBase == resource.start {
        if p.MemTop() == p.FdTop() {
          hobs := hobs[i := hobs[i].(attributes := resource.Absent())];
        } else {
          BuildResourceDescriptorHob(SYSTEM_MEMORY, resource.Absent(), p.fdBase, p.fdSize);
          hobs := hobs[i := hobs[i].(start := Wrap64(hobs[i].start + p.fdSize))];
          hobs := hobs[i := hobs[i].(length := Wrap64(hobs[i].length - p.fdSize))];
        }
      } else {
        BuildResourceDescriptorHob(SYSTEM_MEMORY, resource.Absent(), p.fdBase, p.fdSize);
        hobs := hobs[i := hobs[i].(length := Wrap64(p.fdBase - hobs[i].start))];
        if p.FdTop() < Wrap64(hobs[i].start + resource.length) {
          BuildResourceDescriptorHob(SYSTEM_MEMORY, resource.attributes, p.FdTop(), Wrap64(resourceTop - p.FdTop()));
        }
      }
    }

    /** The HOB part of MemoryPeim. ok is false where ASSERT(Found) fires. */
    method MemoryPeim(p: Platform) returns (ok: bool)
      modifies this
      ensures ok <==> PeimMap(p, old(hobs)).Some?
      ensures ok ==> Some(hobs) == PeimMap(p, old(hobs))
      ensures !ok ==> hobs == Declare(p, old(hobs))
    {
      hide Declare, CarveAt;
      DeclareMainMemory(p);
      ok := true;
      if p.fdBase >= p.memBase && p.FdTop() <= p.MemTop() {
        ok := false;
        var next := 0;
        while next < |hobs|
          invariant next <= |hobs| && hobs == Declare(p, old(hobs)) && !ok
          invariant FirmwareHob(p, hobs, 0) == FirmwareHob(p, hobs, next)
        {
          if HoldsFirmware(p, hobs[next]) {
            CarveFirmware(p, next);
            ok := true;
            break;
          }
          next := next + 1;
        }
      }
    }
  }

  /** A system memory HOB that starts at or below the main memory and ends at or below its end. */
  predicate EndsByMainMemory(p: Platform, h: Hob) {
    && h.kind == 0 && h.start <= p.memBase
    && (h.start + h.length) % 0x1_0000_0000_0000_0000 <= (p.memBase + p.memSize) % 0x1_0000_0000_0000_0000
  }

  // ----- where the UEFI region goes

  /** MAX_ADDRESS on 32-bit and 64-bit processors. */
  predicate IsMaxAddress(maxAddress: u64) {
    maxAddress == TWO32 - 1 || maxAddress == TWO64 - 1
  }

  /** A conversion to UINTN. */
  function Uintn(x: int, maxAddress: u64): u64
    requires IsMaxAddress(maxAddress)
  {
    x % (maxAddress + 1)
  }

  function SystemMemoryTop(p: Platform, maxAddress: u64): u64
    requires IsMaxAddress(maxAddress)
  {
    var sum := Wrap64(Uintn(p.memBase, maxAddress) + p.memSize);
    if Wrap64(sum - 1) > maxAddress then Wrap64(maxAddress + 1) else sum
  }

  /** Base of the `region` bytes handed to PeiServicesInstallPeiMemory; None where an ASSERT fires. */
  function UefiMemoryBase(p: Platform, region: u32, maxAddress: u64): Option<u64>
    requires IsMaxAddress(maxAddress)
  {
    if p.memSize == 0 || p.memBase >= maxAddress then None
    else
      var base := Uintn(p.memBase, maxAddress);
      var top := SystemMemoryTop(p, maxAddress);
      var fdBase := Uintn(p.fdBase, maxAddress);
      var fdTop := Uintn(fdBase + p.fdSize, maxAddress);
      if fdBase >= base && fdTop <= top then
        if top - fdTop >= region then Some(Uintn(Wrap64(top - region), maxAddress))
        else if Uintn(base + region, maxAddress) <= fdBase then Some(Uintn(fdBase - region, maxAddress))
        else None
      else if (fdBase < base || fdBase >= top) && (fdTop <= base || fdTop > top) then
        Some(Uintn(Wrap64(top - region), maxAddress))
      else None
  }

  /** The end of the memory the processor can address. */
  function UsableTop(p: Platform, maxAddress: u64): nat {
    if p.memBase + p.memSize > maxAddress + 1 then maxAddress + 1 else p.memBase + p.memSize
  }

  ghost predicate InOnePresentPiece(hobs: seq<Hob>, start: nat, length: nat) {
    exists i :: 0 <= i < |hobs| && PieceHolds(hobs[i], start, length)
  }

  predicate PieceHolds(h: Hob, start: nat, length: nat) {
    h.kind == SYSTEM_MEMORY && h.Present() && h.start <= start && start + length <= h.start + h.length
  }

  /** The firmware leaves too little room above it, and the size check of the room below it wraps. */
  predicate SizeCheckWraps(p: Platform, region: u32, maxAddress: u64) {
    && p.FirmwareInMemory()
    && UsableTop(p, maxAddress) - (p.fdBase + p.fdSize) < region
    && p.memBase + region > maxAddress
  }

  /** The firmware ends where the address space does, so that its computed end is zero. */
  predicate EndWraps(p: Platform, maxAddress: u64) {
    p.FirmwareInMemory() && p.fdBase + p.fdSize == maxAddress + 1
  }

  /** The firmware device is addressable. */
  predicate Addressable(p: Platform, maxAddress: u64) {
    p.fdBase <= maxAddress && p.fdBase + p.fdSize <= maxAddress + 1
  }

  /** The region chosen lies in system memory, below the last usable address and clear of firmware
      that lies in system memory - precisely when it is not larger than the usable memory and neither
      the assertion on its size nor the firmware's end wraps. */
  lemma RegionAvoidsFirmwareIff(p: Platform, region: u32, maxAddress: u64)
    requires IsMaxAddress(maxAddress) && p.NoWrap() && Addressable(p, maxAddress)
    requires region > 0 && UefiMemoryBase(p, region, maxAddress).Some?
    ensures var u := UefiMemoryBase(p, region, maxAddress).value;
            && p.memBase <= u && u + region <= UsableTop(p, maxAddress)
            && (p.FirmwareInMemory() ==> u + region <= p.fdBase || p.fdBase + p.fdSize <= u)
            <==> p.memBase + region <= UsableTop(p, maxAddress)
                 && !SizeCheckWraps(p, region, maxAddress) && !EndWraps(p, maxAddress)
  {
    hide Uintn, Wrap64, SystemMemoryTop, UsableTop;
    TopIsUsable(p, maxAddress);
    WrapSmall(p.memBase + p.memSize);
    WrapSmall(p.fdBase + p.fdSize);
    UintnNear(p.memBase, maxAddress);
    UintnNear(p.fdBase, maxAddress);
    UintnNear(p.fdBase + p.fdSize, maxAddress);
    var top := UsableTop(p, maxAddress);
    WrapSmall(top - region);
    UintnNear(top - region, maxAddress);
    UintnNear(p.memBase + region, maxAddress);
    UintnNear(p.fdBase - region, maxAddress);
  }

  /** Where the region goes when nothing wraps: below the end of the usable memory, unless the firmware lies
      in it and leaves too little room above itself; then below the firmware, if there is room for it there. */
  lemma RegionEndsAtTop(p: Platform, region: u32, maxAddress: u64)
    requires IsMaxAddress(maxAddress) && p.NoWrap() && p.fdBase + p.fdSize <= maxAddress
    requires 0 < region && 0 < p.memSize && p.memBase < maxAddress
    requires !SizeCheckWraps(p, region, maxAddress)
    ensures var end := if p.memBase + p.memSize > maxAddress + 1 then maxAddress + 1 else p.memBase + p.memSize;
            var fdEnd := p.fdBase + p.fdSize;
            var u := UefiMemoryBase(p, region, maxAddress);
            if p.memBase <= p.fdBase && fdEnd <= end then
              if end - fdEnd >= region then u.Some? && u.value + region == end
              else if p.fdBase - p.memBase >= region then u.Some? && u.value + region == p.fdBase
              else u.None?
            else if p.memBase <= p.fdBase < end || p.memBase < fdEnd <= end then u.None?
            else end >= region ==> u.Some? && u.value + region == end
  {
    hide Uintn, Wrap64, SystemMemoryTop;
    TopIsUsable(p, maxAddress);
    WrapSmall(p.memBase + p.memSize);
    WrapSmall(p.fdBase + p.fdSize);
    UintnNear(p.memBase, maxAddress);
    UintnNear(p.fdBase, maxAddress);
    UintnNear(p.fdBase + p.fdSize, maxAddress);
    var top := UsableTop(p, maxAddress);
    WrapSmall(top - region);
    UintnNear(top - region, maxAddress);
    UintnNear(p.memBase + region, maxAddress);
    UintnNear(p.fdBase - region, maxAddress);
  }

  /** The top computed by InitializeMemory is the end of the usable memory. */
  lemma TopIsUsable(p: Platform, maxAddress: u64)
    requires IsMaxAddress(maxAddress) && p.NoWrap() && p.memSize > 0 && p.memBase < maxAddress
    ensures SystemMemoryTop(p, maxAddress) == UsableTop(p, maxAddress)
    ensures p.memBase < UsableTop(p, maxAddress) <= maxAddress + 1
    ensures UsableTop(p, maxAddress) <= p.memBase + p.memSize
    ensures UsableTop(p, maxAddress) <= maxAddress ==> UsableTop(p, maxAddress) == p.memBase + p.memSize
  {
    hide Uintn, Wrap64;
    UintnNear(p.memBase, maxAddress);
    WrapSmall(p.memBase + p.memSize);
    WrapSmall(p.memBase + p.memSize - 1);
    WrapSmall(maxAddress + 1);
  }

  lemma WrapSmall(x: int)
    ensures 0 <= x < TWO64 ==> Wrap64(x) == x
  {
  }

  lemma UintnNear(x: int, maxAddress: u64)
    requires IsMaxAddress(maxAddress)
    ensures 0 <= x <= maxAddress ==> Uintn(x, maxAddress) == x
    ensures 0 - maxAddress <= x < 0 ==> Uintn(x, maxAddress) == x + maxAddress + 1
    ensures x == maxAddress + 1 ==> Uintn(x, maxAddress) == 0
  {
  }

  /** A region reaching from the memory base to the end of a 32-bit address space defeats the
      assertion on its size: the sum wraps to zero, and the region is placed below system memory. */
  lemma FullRegionWraps()
    ensures UefiMemoryBase(Platform(0x8000_0000, 0x8000_0000, 0xC000_0000, 0x1000), 0x8000_0000, TWO32 - 1)
            == Some(0x4000_0000)
  {
    assert Wrap64(0x8000_0000 + 0x8000_0000) == TWO32;
    assert Uintn(0x8000_0000 + 0x8000_0000, TWO32 - 1) == 0;
  }

  /** Firmware in the last megabyte of a 32-bit address space that is all memory from 2 GB on: its end
      reads as zero, and a region of 64 MiB is placed over it. */
  lemma FirmwareAtTopIsOverlaid()
    ensures var p := Platform(0x8000_0000, 0x8000_0000, 0xFFF0_0000, 0x10_0000);
            && UefiMemoryBase(p, 0x400_0000, TWO32 - 1) == Some(0xFC00_0000)
            && p.FirmwareInMemory() && 0xFC00_0000 <= p.fdBase && p.FdTop() <= 0xFC00_0000 + 0x400_0000
  {
    assert Wrap64(0x8000_0000 + 0x8000_0000) == TWO32;
    assert Uintn(0xFFF0_0000 + 0x10_0000, TWO32 - 1) == 0;
  }

  /** With the main memory declared, by the platform or by MemoryPeim itself, as one HOB that is present
      and the first to contain the firmware: whatever MemoryPeim does to the map, the region
      InitializeMemory chose lies wholly in one present piece of it. */
  lemma RegionInOnePresentPiece(p: Platform, hobs: seq<Hob>, k: nat, region: u32, maxAddress: u64)
    requires IsMaxAddress(maxAddress) && p.NoWrap() && Addressable(p, maxAddress)
    requires region > 0 && p.memBase + region <= UsableTop(p, maxAddress)
    requires !SizeCheckWraps(p, region, maxAddress) && !EndWraps(p, maxAddress)
    requires UefiMemoryBase(p, region, maxAddress).Some?
    requires var d := Declare(p, hobs);
             && k < |d| && d[k].kind == SYSTEM_MEMORY && d[k].Present()
             && d[k].start == p.memBase && d[k].length == p.memSize
             && (p.FirmwareInMemory() ==> FirmwareHob(p, d, 0) == k)
    ensures var t := PeimMap(p, hobs);
            t.Some? && InOnePresentPiece(t.value, UefiMemoryBase(p, region, maxAddress).value, region)
  {
    hide UefiMemoryBase, FirmwareHob, Carve, CarveAt, Declare;
    var u, d := UefiMemoryBase(p, region, maxAddress).value, Declare(p, hobs);
    RegionAvoidsFirmwareIff(p, region, maxAddress);
    if p.FirmwareInMemory() {
      var s, t := Carve(p, d[k]).Pieces(), CarveAt(p, d, k);
      CarvedElements(p, d, k);
      var m := PieceForRegion(p, d[k], u, region);
      assert s[m] == t[if m == 0 then k else |d| + m - 1];
    } else {
      assert PieceHolds(d[k], u, region);
    }
  }

  /** In particular when no system memory was known: MemoryPeim declares the main memory itself. */
  lemma RegionInDeclaredMemory(p: Platform, region: u32, maxAddress: u64)
    requires IsMaxAddress(maxAddress) && p.NoWrap() && Addressable(p, maxAddress)
    requires region > 0 && p.memBase + region <= UsableTop(p, maxAddress)
    requires !SizeCheckWraps(p, region, maxAddress) && !EndWraps(p, maxAddress)
    requires UefiMemoryBase(p, region, maxAddress).Some?
    ensures var t := PeimMap(p, []);
            t.Some? && InOnePresentPiece(t.value, UefiMemoryBase(p, region, maxAddress).value, region)
  {
    hide UefiMemoryBase, Carve, CarveAt, PieceHolds;
    assert Declare(p, []) == [Hob(SYSTEM_MEMORY, MAIN_ATTRIBUTES, p.memBase, p.memSize)];
    RegionInOnePresentPiece(p, [], 0, region, maxAddress);
  }

  lemma PieceForRegion(p: Platform, h: Hob, u: nat, region: nat) returns (m: nat)
    requires p.NoWrap() && h.NoWrap() && HoldsFirmware(p, h) && h.Present() && region > 0
    requires h.start <= u && u + region <= h.start + h.length && h.start + h.length == p.memBase + p.memSize
    requires u + region <= p.fdBase || p.fdBase + p.fdSize <= u
    ensures m < |Carve(p, h).Pieces()| && PieceHolds(Carve(p, h).Pieces()[m], u, region)
  {
    var s := Carve(p, h).Pieces();
    m := if u + region <= p.fdBase || p.fdBase == h.start then 0 else 2;
    assert s[0] == Carve(p, h).edited;
    assert m == 2 ==> s[2] == Carve(p, h).added[1];
  }
}
