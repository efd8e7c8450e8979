# Verified models of an EDK II tree

Dafny models of six components of this firmware tree, with proofs of what each of them promises
over whole runs. `dafny verify dfyconfig.toml` checks the project.

* **Frame buffer blitter** (`CorebootPayloadPkg/FbGop`): `Raster`, `Pixels`, `BltModel`, `BltPlane`,
  `BltReadback`, `ScreenBytes` (what a call leaves in each byte), `BusTraffic` (the writes that reach the
  bus), `FrameBuffer`. The class `VideoDevice`
  works on two byte arrays, the in-memory shadow and the physical frame buffer. Its methods refine a
  machine over rows of bytes, and that machine refines a plain plane of pixels.
* **PCI root bridge I/O** (`ArmVirtPkg/PciHostBridgeDxe/PciRootBridgeIo.c`): `RootBridgeIo` (range check
  and the stride-driven transfers), `TransferBytes` (which byte goes where), `RootBridgeCopy` (the element-wise memmove), `RootBridgeOverlap` (which
  of its calls are none), `RootBridgeMap` (bounce buffers), `RootBridgeDma` (what is in them, over runs).
* **PCI host bridge** (`ArmVirtPkg/PciHostBridgeDxe/PciHostBridge.c`): `AcpiDescriptor`, `Gcd`,
  `HostBridgeModel` (the phase machine), `HostBridgeSafety`, `HostBridgeDiscipline`,
  `HostBridgeAccounting`, `HostBridgeConservation` and `HostBridgeCallOrder` (which space is owned),
  `HostBridgeRequests` (what was asked for), `HostBridgePhases` (which calls succeed), `HostBridgeProposal`, `HostBridgeAperture`, and the class-based driver in `HostBridge`.
* **Boot option manager** (`ArmPlatformPkg/Bds`): `LoadOption` (EFI_LOAD_OPTION), `BootModel` and
  `BootCoherence` (list against variables), `BootPlaces` (which entry, where), `LinkedList` (the circular list of BaseLib, node by node),
  `BootMenu` (the menu operations over that list).
* **Firmware volume walk** (`CorebootModulePkg/SecCore/FindPeiCore.c`): `FvWalk` (the nested loops),
  `FvChain` (what they find, said without them), `FvLayout` (laying out and finding).
* **Memory map and device tree** (`ArmPlatformPkg/MemoryInitPei`, `ArmVirtPkg/VirtFdtDxe`): `MemoryMap`,
  `MemoryInit`, `FdtPci`, and `PciPlatform`, which carries the parsed windows through aperture setup and
  resource allocation to root bridge I/O.

`Words`, `Slices` and `Efi` hold fixed-width words, sequence patches and status codes. Words are
unbounded integers with the wrap-around written out (`Wrap64`, `Uintn`, `% 0x1_0000`).

## How the models are built

Code that updates state in place is a class or a method over arrays, proved equal to a step of a
value-level machine; the promises are lemmas about that machine. What the machine's definitions mean in
bytes, positions and numbers is stated once more without them: in `ScreenBytes`, `TransferBytes`,
`HostBridgeRequests`, `HostBridgePhases` and `BootPlaces`, and by the layout lemmas of the other modules.
Decisions of code outside the model
are arguments: which range the GCD or the page allocator grants and whether it frees one (`Answer`,
`Reply`), whether a variable write succeeds (`bootOk`, `orderOk`, `setOk`), what the user types and
presses. Every lemma holds for all of them, unless it names the answers it needs.

Where the code does not do what one would expect, the code is modelled as it is, and a lemma gives the
exact condition, and an input where a condition alone would not show it:

* The host bridge gives the GCD an upper limit only. The GCD grants the highest range there is; over runs
  of such grants, windows lie inside the aperture if and only if the GCD has no address of that type below
  the aperture base (`InApertureIff`). Any such address, for instance MMIO space that the NOR flash or
  real-time clock driver adds, becomes a window once the addresses above it are granted (`SpillsBelow`),
  and root bridge I/O then refuses accesses to it (`AccessibleIff`).
* Allocated windows are forgotten without being freed by a `BeginEnumeration`, by submitting or
  allocating again, and by a `FreeResources` whose free the GCD refuses. The space owned stays exactly
  accounted for over a run if and only if no call forgets one (`RunIsExactIff`, and an `...IsExactIff`
  lemma for each call). A caller who frees after each `AllocateResources` before anything else is submitted,
  allocated or enumerated is safe if no free is refused (`OrderlyIsDisciplined`).
* A proposal does not carry the alignment, so submitting it again drops it (`ProposalResubmits`).
* `RootBridgeIoCopyMem` is a memmove whenever it succeeds, unless the memory window is the whole address
  space (`CopyIsMemmoveIff`); there a run may wrap and read what it has just written (`WrappingCopy`,
  `CallMovesIff`). On every aperture that a usable device tree node gives, it is one
  (`ParsedCopyIsMemmove`).
* Accepted configuration accesses are aligned if and only if the extended register is
  (`PciAccessAlignedIff`, `MisalignedConfigAccess`).
* A bounce buffer keeps its bytes over any interleaving of calls and stores unless another mapping's
  `Unmap` writes back into it. A write-back can reach another bounce buffer if and only if its host range
  has a byte below 4 GB on a page that nobody else has allocated and that is not its own
  (`WriteBackMissesIff`).
* When the bounce pages are refused, `RootBridgeIoMap` leaves `*Mapping` pointing at freed pool memory
  (`MappingMayBeUnmappedIff`).
* `FbGopCheckForVbe` keeps the scan line length in 16 bits; pixels keep their bytes to themselves if and
  only if it fits or there is a single row (`PixelsApartIff`). Pixels survive a round trip exactly when
  the shifted masks are whole and disjoint (`RoundTripIffSeparate`).
* A fill sends the shadow's first row to every screen row, so, unlike a move or a buffer transfer, it
  misaligns 32-bit writes on aligned buffers when the scan line is no multiple of four
  (`CallAlignedIff`, `FillMisalignsWords`).
* `BootOptionSetFields` cuts the device path length to 16 bits (`RoundTripIffShortPath`). Each menu
  operation keeps list and variables in step exactly under the condition in its `...Iff` lemma; index 0
  is handed out twice when all indices are taken.
* `MemoryPeim` compares tops the wrong way round when it looks for the main memory: it accepts a HOB that
  starts at or below the memory base and ends at or below the memory top. An accepted HOB holds the main
  memory if and only if it ends exactly at the top (`AcceptedHobHoldsMainIff`, `MainMemoryHeldIff`); any
  memory that lies below it keeps it from being declared (`MemoryBelowHidesMainIff`). PRESENT is cleared
  on more than the firmware when the firmware's HOB overshoots the memory top (`ClearsExactlyFirmwareIff`).
* `InitializeMemory` does not compare the region with the usable memory, and on 32-bit processors its
  assertion on the size and the end of firmware that reaches 4 GB can wrap (`RegionAvoidsFirmwareIff`,
  `FullRegionWraps`, `FirmwareAtTopIsOverlaid`).
* The header of `ProcessPciHost` announces EFI_PROTOCOL_ERROR as the only failure
  (`ArmVirtPkg/VirtFdtDxe/VirtFdtDxe.c:141-144`); the code also returns EFI_UNSUPPORTED, and the model
  follows the code.

## Model

| member | source | states |
|---|---|---|
| `Words.MaskTestIsExact` | ArmVirtPkg/PciHostBridgeDxe/PciHostBridge.c:950 | the power-of-two test accepts exactly the masks 2^k - 1, and HighBitSet64(mask) + 1 is then k |
| `Words.LeRoundTrip` | ArmPlatformPkg/Bds/BootOption.c:118-126 | a word stored little-endian in enough bytes reads back unchanged |
| `Words.LeDigit` | ArmPlatformPkg/Bds/BootOption.c:118-126 | byte i of a stored word is its digit i to the base 256 |
| `Gcd.Allocate` | MdeModulePkg/Core/Dxe/Gcd/Gcd.c:1021-1270 | a success grants an aligned free range ending at or below the maximum and only that; a failure changes nothing |
| `Gcd.FreeUndoesAllocate` | MdeModulePkg/Core/Dxe/Gcd/Gcd.c:707-955 | a free that is not refused puts the space back as it was before the allocation |
| `AcpiDescriptor.DecodeEncode` | ArmVirtPkg/PciHostBridgeDxe/PciHostBridge.c:934-999 | a 46-byte address space descriptor written at any offset reads back field by field |
| `AcpiDescriptor.RecordLayout` | ArmVirtPkg/PciHostBridgeDxe/PciHostBridge.c:934-999 | type, flags and the five 64-bit fields of a record are read at bytes 3, 4, 5 and at offsets 6, 14, 22, 30 and 38 |
| `AcpiDescriptor.QwordValue` | ArmVirtPkg/PciHostBridgeDxe/PciHostBridge.c:934-999 | the 64-bit field read at an offset is the sum of its eight bytes, least significant first |
| `AcpiDescriptor.ScanStopsAt` | ArmVirtPkg/PciHostBridgeDxe/PciHostBridge.c:918-924 | the scan over 0x8A records stops at the first byte that starts none, and counts the records before it |
| `HostBridgeSafety.AllocNodeKeepsInv` | ArmVirtPkg/PciHostBridgeDxe/PciHostBridge.c:371-463 | one node's allocation, whatever the GCD answers, keeps ownership, disjointness, limits and alignment |
| `HostBridgeSafety.NotifyKeepsInv` | ArmVirtPkg/PciHostBridgeDxe/PciHostBridge.c:306-535 | every phase, in any state and for any GCD answers to its allocations and frees, keeps the invariant |
| `HostBridgeSafety.AlignmentCheck` | ArmVirtPkg/PciHostBridgeDxe/PciHostBridge.c:950-952 | an alignment that passes the check is a mask with an exponent of at most 31 |
| `HostBridgeSafety.SubmitKeepsInv` | ArmVirtPkg/PciHostBridgeDxe/PciHostBridge.c:894-1019 | any submission, accepted or cut short by an error, keeps the invariant |
| `HostBridgeSafety.ReachableInv` | ArmVirtPkg/PciHostBridgeDxe/PciHostBridge.c:288-535 | the invariant holds after any sequence of NotifyPhase and SubmitResources calls over any number of root bridges |
| `HostBridgeSafety.AllocatedWindowIsOwned` | ArmVirtPkg/PciHostBridgeDxe/PciHostBridge.c:403-405 | in every reachable state an allocated window is owned in the GCD and ends at or below the aperture limit |
| `HostBridgeSafety.AllocatedWindowsAreDisjoint` | ArmVirtPkg/PciHostBridgeDxe/PciHostBridge.c:369-466 | windows allocated to different root bridges in one space never overlap |
| `HostBridgeSafety.AllocatedBaseIsAligned` | ArmVirtPkg/PciHostBridgeDxe/PciHostBridge.c:376-390 | allocated Mem32 bases are multiples of Alignment + 1, I/O bases whenever Alignment is at most 0x7FFF |
| `HostBridgeSafety.CombineKeepsOtherNodesIdle` | ArmVirtPkg/PciHostBridgeDxe/PciHostBridge.c:25 | with the hard-coded COMBINE attribute PMem32, Mem64 and PMem64 nodes stay ResNone for ever |
| `HostBridgeRequests.SubmittedNodes` | ArmVirtPkg/PciHostBridgeDxe/PciHostBridge.c:919-1010 | by position in the stream: a submission succeeds if and only if every record passes the checks, and the I/O and the Mem32 node then hold AddrLen and AddrRangeMax of the last accepted record of their type and are requested; every other bridge keeps its nodes |
| `HostBridgeRequests.SubmitRefused` | ArmVirtPkg/PciHostBridgeDxe/PciHostBridge.c:896-918 | a NULL or untagged stream and an unknown handle are refused and change nothing |
| `HostBridgeRequests.WindowIsAsSubmitted` | ArmVirtPkg/PciHostBridgeDxe/PciHostBridge.c:361-471 | over runs: until the bridge submits again its nodes keep that alignment, their length or zero, and a window allocated has a base that is a multiple of the submitted AddrRangeMax + 1 (for I/O up to 0x7FFF) |
| `HostBridgePhases.NodeVisited` | ArmVirtPkg/PciHostBridgeDxe/PciHostBridge.c:371-463 | an active node whose request the GCD fulfils gets the base granted and its space the window; otherwise the phase returns an error, the length becomes zero unless resources ran out, and nothing is owned |
| `HostBridgePhases.AllocateStatusIff` | ArmVirtPkg/PciHostBridgeDxe/PciHostBridge.c:361-471 | AllocateResources succeeds if and only if something was submitted and the visit of no node fails |
| `HostBridgePhases.FreeStatusIff` | ArmVirtPkg/PciHostBridgeDxe/PciHostBridge.c:476-527 | FreeResources succeeds if and only if every allocated window has a length and is freed; nothing stays allocated either way |
| `HostBridgePhases.RestartClears` | ArmVirtPkg/PciHostBridgeDxe/PciHostBridge.c:308-335 | a BeginEnumeration that is allowed empties every node but for its alignment and frees nothing |
| `HostBridgePhases.OtherPhases` | ArmVirtPkg/PciHostBridgeDxe/PciHostBridge.c:336-360 | the other phases keep nodes, spaces and the submission; an unknown one is refused |
| `HostBridgePhases.RestartIff` | ArmVirtPkg/PciHostBridgeDxe/PciHostBridge.c:308-360 | after any run BeginEnumeration succeeds if and only if each BeginBusAllocation and EndResourceAllocation was followed by a FreeResources; else EFI_NOT_READY and no change |
| `HostBridgePhases.AllocateReadyIff` | ArmVirtPkg/PciHostBridgeDxe/PciHostBridge.c:361-364 | after any run AllocateResources answers EFI_NOT_READY unless a submission with an accepted record came after the last FreeResources and the last restarted enumeration |
| `HostBridgeAccounting.AllocateIsExactIff` | ArmVirtPkg/PciHostBridgeDxe/PciHostBridge.c:361-471 | AllocateResources keeps owned space exactly accounted for, also when partly failed, if and only if every window already allocated meets EFI_OUT_OF_RESOURCES |
| `HostBridgeAccounting.AllocateIsAlwaysExactIff` | ArmVirtPkg/PciHostBridgeDxe/PciHostBridge.c:361-471 | AllocateResources does so whatever the GCD answers if and only if nothing is allocated |
| `HostBridgeAccounting.FreeIsExactIff` | ArmVirtPkg/PciHostBridgeDxe/PciHostBridge.c:476-527 | FreeResources does if and only if the GCD refuses to free no window |
| `HostBridgeConservation.SubmitIsExactIff` | ArmVirtPkg/PciHostBridgeDxe/PciHostBridge.c:894-1019 | a submission does if and only if no record it accepts asks for a window that is allocated |
| `HostBridgeConservation.OwnedIsExactlyTheWindows` | ArmVirtPkg/PciHostBridgeDxe/PciHostBridge.c:361-471 | in runs that forget no window the space owned in the GCD is exactly the union of the allocated windows |
| `HostBridgeAccounting.FreeResourcesReturnsEverything` | ArmVirtPkg/PciHostBridgeDxe/PciHostBridge.c:476-527 | FreeResources in an exact state, if no free is refused, succeeds and leaves nothing allocated and nothing owned |
| `HostBridgeConservation.FreeRestoresInitialGcd` | ArmVirtPkg/PciHostBridgeDxe/PciHostBridge.c:476-527 | FreeResources after any run that forgets no window, if no free is refused, restores both GCD spaces to their state before the run |
| `HostBridgeAccounting.RestartIsExactIff` | ArmVirtPkg/PciHostBridgeDxe/PciHostBridge.c:308-335 | restarting the enumeration does if and only if no node is allocated |
| `HostBridgeConservation.RunIsExactIff` | ArmVirtPkg/PciHostBridgeDxe/PciHostBridge.c:288-535 | over a run the accounting is exact in every state if and only if no call forgets an allocated window |
| `HostBridgeCallOrder.OrderlyIsDisciplined` | ArmVirtPkg/PciHostBridgeDxe/PciHostBridge.c:288-535 | if every AllocateResources is followed by FreeResources before anything else is submitted, allocated or enumerated, and no free is refused, no call forgets a window, whatever else the GCD answers |
| `HostBridgeCallOrder.OrderlyReturnsEverything` | ArmVirtPkg/PciHostBridgeDxe/PciHostBridge.c:476-527 | a closing FreeResources after such a run restores both GCD spaces to their state before the run |
| `HostBridgeAperture.InApertureIff` | ArmVirtPkg/PciHostBridgeDxe/PciHostBridge.c:403-430 | over runs in which every grant is the highest one, windows lie in [base, limit] if and only if the GCD has no address of the type below the base up to the limit |
| `HostBridgeAperture.SpillsBelow` | MdeModulePkg/Core/Dxe/Gcd/Gcd.c:1138-1227 | a run of highest grants after which any given free address that the search reaches is a root bridge's window |
| `HostBridgeProposal.ProposedLength` | ArmVirtPkg/PciHostBridgeDxe/PciHostBridge.c:1073-1077 | the proposal has one descriptor for each node that is not ResNone |
| `HostBridgeProposal.ProposedRecord` | ArmVirtPkg/PciHostBridgeDxe/PciHostBridge.c:1091-1185 | field by field: type, prefetch flag and granularity of the node's kind; base and length of an I/O or Mem32 node with status SATISFIED if and only if it is allocated, else LESS; zeros and NONEXISTENT for the other kinds |
| `HostBridgeProposal.ProposalScans` | ArmVirtPkg/PciHostBridgeDxe/PciHostBridge.c:1091-1191 | the printed stream is read back by the scan of SubmitResources, record by record, and the scan stops on the one end tag |
| `HostBridgeProposal.ProposalResubmits` | ArmVirtPkg/PciHostBridgeDxe/PciHostBridge.c:919-1010 | in every reachable state submitting a bridge's own proposal succeeds, requests exactly its non-empty I/O and Mem32 windows again, with base and length kept and alignment zero, and leaves every other node and bridge as it was |
| `HostBridge.HostBridgeInstance.BeginEnumerationPhase` | ArmVirtPkg/PciHostBridgeDxe/PciHostBridge.c:313-328 | the in-place reset of all nodes and flags is the machine's reset |
| `HostBridge.HostBridgeInstance.AllocateNode` | ArmVirtPkg/PciHostBridgeDxe/PciHostBridge.c:371-463 | the loop body updates node, space and status as the machine's step for that node |
| `HostBridge.HostBridgeInstance.AllocateResourcesPhase` | ArmVirtPkg/PciHostBridgeDxe/PciHostBridge.c:361-471 | the nested loops visit all root bridges and node types in order |
| `HostBridge.HostBridgeInstance.FreeResourcesPhase` | ArmVirtPkg/PciHostBridgeDxe/PciHostBridge.c:476-527 | the freeing loops, status and flags are the machine's FreeResources |
| `HostBridge.HostBridgeInstance.NotifyPhase` | ArmVirtPkg/PciHostBridgeDxe/PciHostBridge.c:288-538 | the method over objects takes the machine's step for every phase and returns its status |
| `HostBridge.HostBridgeInstance.SubmitResources` | ArmVirtPkg/PciHostBridgeDxe/PciHostBridge.c:894-1019 | the method over objects takes the machine's submission step, including updates made before a descriptor is refused |
| `HostBridge.HostBridgeInstance.GetProposedResources` | ArmVirtPkg/PciHostBridgeDxe/PciHostBridge.c:1043-1202 | the buffer filled through the moving pointer is the machine's proposal of the addressed bridge; errors leave no buffer |
| `HostBridge.WriteProposal` | ArmVirtPkg/PciHostBridgeDxe/PciHostBridge.c:1091-1191 | allocation size and stores agree: the buffer is filled exactly |
| `RootBridgeIo.CheckParameter` | ArmVirtPkg/PciHostBridgeDxe/PciRootBridgeIo.c:746-869 | accepts exactly the aligned requests whose whole run, over unbounded integers, lies in the window, also for Limit = 2^64-1; says which refusals are EFI_UNSUPPORTED |
| `RootBridgeIo.TransferLoop` | ArmVirtPkg/PciHostBridgeDxe/PciRootBridgeIo.c:919-959 | the stride-driven loop makes exactly the element accesses of the transfer, in order, with wrapping address updates |
| `RootBridgeIo.WriteMeaning` | ArmVirtPkg/PciHostBridgeDxe/PciRootBridgeIo.c:583-614 | a write stores the whole buffer (normal), one element repeated (fill) or the last element (FIFO), and nothing else |
| `RootBridgeIo.ReadMeaning` | ArmVirtPkg/PciHostBridgeDxe/PciRootBridgeIo.c:583-614 | a read leaves the target alone and fills the buffer with the bytes its mode selects |
| `RootBridgeIo.ElementsWithin` | ArmVirtPkg/PciHostBridgeDxe/PciRootBridgeIo.c:839-866 | every element access of a run inside a range stays inside it |
| `TransferBytes.AcceptedOnBus` | ArmVirtPkg/PciHostBridgeDxe/PciRootBridgeIo.c:795-866 | in literal sizes and bounds: which memory and port accesses are accepted |
| `TransferBytes.AcceptedOnConfig` | ArmVirtPkg/PciHostBridgeDxe/PciRootBridgeIo.c:795-866 | which configuration accesses are, digit by digit of the address |
| `TransferBytes.WrittenByte` | ArmVirtPkg/PciHostBridgeDxe/PciRootBridgeIo.c:583-614 | byte j of element c after a write, for each mode |
| `TransferBytes.ReceivedByte` | ArmVirtPkg/PciHostBridgeDxe/PciRootBridgeIo.c:583-614 | byte j of element c of the buffer after a read, for each mode |
| `RootBridgeIo.MemRW` | ArmVirtPkg/PciHostBridgeDxe/PciRootBridgeIo.c:889-961 | succeeds exactly for acceptable requests, touches only the memory aperture, and moves exactly the bytes asked for |
| `RootBridgeIo.IoRW` | ArmVirtPkg/PciHostBridgeDxe/PciRootBridgeIo.c:980-1058 | succeeds exactly for acceptable requests; the elements go to translated addresses modulo 2^64, as one range where the run does not wrap, and to the window's image, port by port, where that does not, also for wrapped negative translations |
| `RootBridgeIo.IoElementsFit` | ArmVirtPkg/PciHostBridgeDxe/PciRootBridgeIo.c:998-1016 | with a translation that is a multiple of the element size no element of an accepted access straddles the end of the address space |
| `RootBridgeIo.PciRW` | ArmVirtPkg/PciHostBridgeDxe/PciRootBridgeIo.c:1077-1158 | the elements go to the address with bus, device, function and register digits at bits 20, 15, 12 and 0, and stay in the 4 KiB page of that function |
| `RootBridgeIo.ConfigFields` | MdePkg/Include/Library/PciLib.h:40-41 | the four digits of a configuration address are the bus, device, function and register given |
| `RootBridgeIo.PciAccessAlignedIff` | ArmVirtPkg/PciHostBridgeDxe/PciRootBridgeIo.c:795-838 | the elements of an accepted configuration access are aligned if and only if the extended register is a multiple of the element size |
| `RootBridgeIo.MisalignedConfigAccess` | ArmVirtPkg/PciHostBridgeDxe/PciRootBridgeIo.c:795-838 | a two-byte access to extended register 0x101 is accepted and misaligned |
| `RootBridgeCopy.CopyElement` | ArmVirtPkg/PciHostBridgeDxe/PciRootBridgeIo.c:1558-1575 | one element is read and written back if both places are reachable, else nothing changes |
| `RootBridgeCopy.ReachableRunIsFlat` | ArmVirtPkg/PciHostBridgeDxe/PciRootBridgeIo.c:1537-1583 | unless the memory window is the whole address space, a run of reachable elements cannot have wrapped |
| `RootBridgeCopy.CopyMem` | ArmVirtPkg/PciHostBridgeDxe/PciRootBridgeIo.c:1519-1584 | makes the rounds up to the first element that may not be accessed and no more, for every width, count, overlap and wrap; succeeds exactly when there is none, and then is a memmove unless the window is the whole address space |
| `RootBridgeCopy.CopyWindows` | ArmVirtPkg/PciHostBridgeDxe/PciRootBridgeIo.c:795-866 | unless the window is the whole address space, the per-element checks pass exactly when the whole run is aligned and inside it |
| `RootBridgeCopy.ReachableIsFlatIff` | ArmVirtPkg/PciHostBridgeDxe/PciRootBridgeIo.c:1537-1583 | runs that pass the checks never wrap if and only if the memory window is not the whole address space |
| `RootBridgeCopy.CopyIsMemmoveIff` | ArmVirtPkg/PciHostBridgeDxe/PciRootBridgeIo.c:1519-1584 | every successful copy is a memmove, in an address space that wraps, if and only if the memory window is not the whole address space |
| `RootBridgeCopy.WrappingCopy` | ArmVirtPkg/PciHostBridgeDxe/PciRootBridgeIo.c:1537-1583 | with the whole address space as window, copying two bytes from 2^64-1 to 0 succeeds and leaves in byte 1 the old last byte instead of the old byte 0 |
| `RootBridgeOverlap.CallMovesIff` | ArmVirtPkg/PciHostBridgeDxe/PciRootBridgeIo.c:1537-1583 | exactly which calls are a memmove on every memory: all if the window is not the whole address space; there those that copy nothing, and those whose length is at most the distance, in the direction of the copy and modulo 2^64, between the runs |
| `RootBridgeMap.MapKeepsInv` | ArmVirtPkg/PciHostBridgeDxe/PciRootBridgeIo.c:1720-1797 | a Map call keeps live bounce buffers page-disjoint, below 4 GB and accounted for |
| `RootBridgeMap.MapAnswers` | ArmVirtPkg/PciHostBridgeDxe/PciRootBridgeIo.c:1684-1797 | for all operations and replies: a non-NULL host range that ends at or below 4 GB, or at 2^64 where the end wraps, is mapped to itself with no Mapping and nothing changed; otherwise a common buffer is EFI_UNSUPPORTED, and the others succeed if and only if both allocators grant |
| `RootBridgeMap.UnmapKeepsInv` | ArmVirtPkg/PciHostBridgeDxe/PciRootBridgeIo.c:1831-1855 | an Unmap call keeps that accounting and releases just its own pages |
| `RootBridgeMap.BounceBuffersOverRuns` | ArmVirtPkg/PciHostBridgeDxe/PciRootBridgeIo.c:1720-1855 | after any interleaving live buffers share no byte and end at or below 4 GB; with nothing mapped the allocator is back to its start |
| `RootBridgeMap.MappingMayBeUnmappedIff` | ArmVirtPkg/PciHostBridgeDxe/PciRootBridgeIo.c:1734-1770 | the Mapping left behind by a call may be handed to Unmap, except precisely when the bounce pages were refused after the MAP_INFO had been allocated |
| `RootBridgeDma.BufferHoldsLastStores` | ArmVirtPkg/PciHostBridgeDxe/PciRootBridgeIo.c:1684-1857 | over any interleaving of Map, Unmap and stores that does not unmap it and whose write-backs miss it, every byte of a live bounce buffer is what the last store into it left, else what was there |
| `RootBridgeDma.LastStoredMeans` | ArmVirtPkg/PciHostBridgeDxe/PciRootBridgeIo.c:1684-1857 | what the last store into a byte is, by position in the run |
| `RootBridgeDma.OwnedRunMisses` | ArmVirtPkg/PciHostBridgeDxe/PciRootBridgeIo.c:1833-1846 | write-backs miss every live bounce buffer when the host memory mapped for bus-master writes lies above 4 GB or on pages of others |
| `RootBridgeDma.BusMasterReadSees` | ArmVirtPkg/PciHostBridgeDxe/PciRootBridgeIo.c:1684-1800 | in any such run a bus master that reads finds the host bytes as of Map at the device address, but for what was stored into the buffer since |
| `RootBridgeDma.BusMasterWriteDelivers` | ArmVirtPkg/PciHostBridgeDxe/PciRootBridgeIo.c:1820-1857 | in any such run Unmap of a bus-master write puts the buffer as the device left it into the host range, and changes nothing else |
| `RootBridgeDma.WriteBackMissesIff` | ArmVirtPkg/PciHostBridgeDxe/PciRootBridgeIo.c:1750-1846 | a write-back can never reach another bounce buffer if and only if each byte of its host range is above 4 GB, on a page of others or on one of its own pages |
| `RootBridgeMap.DmaService.Map` | ArmVirtPkg/PciHostBridgeDxe/PciRootBridgeIo.c:1684-1800 | a call below 4 GB succeeds with the host address and changes nothing, for all six operations; above 4 GB a bus-master read finds the host bytes as of the call and only the new bounce buffer changes; refusals change nothing and return the allocator's status |
| `RootBridgeMap.DmaService.Unmap` | ArmVirtPkg/PciHostBridgeDxe/PciRootBridgeIo.c:1820-1857 | a bus-master write leaves the host range equal to the buffer as the device left it; the mapping and its own pages, and no others, are released |
| `Raster.PatchRows` | CorebootPayloadPkg/FbGop/FbGop.c:1302-1303 | bytes patched at row * pitch + column change exactly that part of that row |
| `Raster.RowsDetermine` | CorebootPayloadPkg/FbGop/FbGop.c:1302-1303 | two frame buffers with equal rows are equal |
| `Pixels.RoundTripIffSeparate` | CorebootPayloadPkg/FbGop/FbGop.c:1280-1284 | packing then unpacking returns every channel under its mask, for all pixels, if and only if the shifted masks are whole and disjoint |
| `Pixels.WordRoundTrip` | CorebootPayloadPkg/FbGop/FbGop.c:1280 | the four bytes of a packed pixel, read back byte by byte, are the word |
| `Pixels.PackedByte` | CorebootPayloadPkg/FbGop/FbGop.c:1341-1345 | bit b of byte k of a stored pixel is bit 8k + b of the channel that covers that place |
| `Pixels.WholeByte` | CorebootPayloadPkg/FbGop/FbGop.c:1386-1390 | with separate masks a channel with mask 0xFF at position 8k is byte k of the stored pixel |
| `BltModel.ClearMakesCoherent` | CorebootPayloadPkg/FbGop/FbGop.c:1024-1041 | after the clearing fill the frame buffer equals the shadow, whatever either held |
| `BltModel.StepKeepsCoherent` | CorebootPayloadPkg/FbGop/FbGop.c:1271-1414 | every transfer keeps frame buffer and shadow equal |
| `BltModel.ScreenShowsShadow` | CorebootPayloadPkg/FbGop/FbGop.c:1271-1414 | from SetMode on, any sequence of transfers keeps the frame buffer equal to the shadow on every byte |
| `BltPlane.StoreRefines` | CorebootPayloadPkg/FbGop/FbGop.c:1292-1411 | storing a transfer's rows changes the pixel plane exactly in the destination rectangle, to the source, fill or packed pixel |
| `BltPlane.RunRefinesPlane` | CorebootPayloadPkg/FbGop/FbGop.c:1271-1414 | over whole runs the frame buffer shows what a plain plane of pixels would |
| `BltPlane.ClearedPlaneIsBlack` | CorebootPayloadPkg/FbGop/FbGop.c:1028-1040 | the plane starts black in every pixel |
| `BltReadback.ReadReturnsPlane` | CorebootPayloadPkg/FbGop/FbGop.c:1272-1290 | a read delivers, pixel by pixel, what the plane shows at the source |
| `BltReadback.BltElsewhere` | CorebootPayloadPkg/FbGop/FbGop.c:1273-1289 | a read changes no byte of the Blt buffer outside the rectangle's rows |
| `BltReadback.WriteThenRead` | CorebootPayloadPkg/FbGop/FbGop.c:1272-1410 | a rectangle written from one buffer and read into another returns each channel under its mask and Reserved zero, for any strides that hold a row |
| `ScreenBytes.StoreDraws` | CorebootPayloadPkg/FbGop/FbGop.c:1292-1411 | byte by byte: in the destination rectangle byte k of a pixel shows the fill pixel, the Blt pixel or the shadow's source pixel of the same column and row; every other byte stays |
| `ScreenBytes.StepDraws` | CorebootPayloadPkg/FbGop/FbGop.c:1292-1411 | an accepted drawing call does so in the shadow and in the frame buffer |
| `ScreenBytes.ReadIsReads` | CorebootPayloadPkg/FbGop/FbGop.c:1272-1290 | byte by byte: a read puts blue, green and red of the source pixel into bytes 0, 1 and 2 and zero into byte 3, and no byte beside the rectangle changes |
| `ScreenBytes.ClearIsBlack` | CorebootPayloadPkg/FbGop/FbGop.c:1028-1040 | after the clearing fill every byte of both buffers is zero |
| `BusTraffic.PlanTilesRow` | CorebootPayloadPkg/FbGop/FbGop.c:1079-1149 | for every length and alignment the split writes cover the row exactly once, in order |
| `BusTraffic.PlanAligned` | CorebootPayloadPkg/FbGop/FbGop.c:1100-1135 | the 32-bit writes of a row are aligned exactly when there is none or source and target agree modulo four |
| `BusTraffic.CallAlignedIff` | CorebootPayloadPkg/FbGop/FbGop.c:1292-1411 | all 32-bit writes of a drawing call are aligned if and only if it sends none, or shadow and frame buffer agree modulo four and, for a fill of more than one row, the scan line is a multiple of four |
| `BusTraffic.FillMisalignsWords` | CorebootPayloadPkg/FbGop/FbGop.c:1349-1373 | at 1366 x 768 with 24 bits per pixel and aligned buffers a 2 x 2 fill sends a misaligned word |
| `BusTraffic.RunAlignedIff` | CorebootPayloadPkg/FbGop/FbGop.c:1271-1414 | the 32-bit writes of a whole run are aligned if and only if every call of it aligns its own |
| `FrameBuffer.SourceUntouched` | CorebootPayloadPkg/FbGop/FbGop.c:1293-1300 | the ascending or descending choice never overwrites a source row before it is copied |
| `FrameBuffer.VideoDevice.constructor` | CorebootPayloadPkg/FbGop/FbGop.c:793-925 | the shadow is sized from the full scan line, the mode keeps its low 16 bits, and the device is valid where nothing was cut off |
| `FrameBuffer.PixelsApartIff` | CorebootPayloadPkg/FbGop/FbGop.c:830-868 | with the scan line length as kept no two pixels share a byte if and only if it fits 16 bits or the screen has at most one row |
| `FrameBuffer.VideoDevice.CopyVideoBuffer` | CorebootPayloadPkg/FbGop/FbGop.c:1062-1150 | a flat copy of TotalBytes, whatever the split; the bus writes issued are the plan |
| `FrameBuffer.VideoDevice.BltVideoToBltBuffer` | CorebootPayloadPkg/FbGop/FbGop.c:1272-1290 | the pixel loops leave in the Blt buffer the unpacked rectangle |
| `FrameBuffer.VideoDevice.BltVideoToVideo` | CorebootPayloadPkg/FbGop/FbGop.c:1292-1325 | for every overlap shadow and frame buffer end as if the rectangle had been moved at once; the bus writes are the call's plan |
| `FrameBuffer.VideoDevice.BltVideoFill` | CorebootPayloadPkg/FbGop/FbGop.c:1327-1373 | one drawn row copied down fills the rectangle in shadow and frame buffer; the bus writes are the call's plan |
| `FrameBuffer.VideoDevice.BltBufferToVideo` | CorebootPayloadPkg/FbGop/FbGop.c:1375-1411 | the packed rows reach shadow and frame buffer; the bus writes are the call's plan |
| `FrameBuffer.VideoDevice.Blt` | CorebootPayloadPkg/FbGop/FbGop.c:1450-1485 | accepts exactly the known operations on non-empty rectangles that lie on the screen; leaves in every byte of shadow, frame buffer and Blt buffer what the call says, channel by channel; refusals change nothing; the bus writes are the call's plan |
| `FrameBuffer.VideoDevice.VbeBltWorker` | CorebootPayloadPkg/FbGop/FbGop.c:1181-1419 | the worker takes the machine's step, refuses exactly the calls its bounds tests refuse, keeps shadow and screen equal and issues exactly the bus writes of the call's plan |
| `FrameBuffer.VideoDevice.SetMode` | CorebootPayloadPkg/FbGop/FbGop.c:1002-1046 | mode 0 makes every byte of frame buffer and shadow zero; other modes change nothing and write nothing |
| `LoadOption.CharsRoundTrip` | ArmPlatformPkg/Bds/BootOption.c:129-131 | a description stored as CHAR16 bytes reads back unchanged |
| `LoadOption.StrSizeOf` | ArmPkg/Library/BdsLib/BdsLoadOption.c:51-53 | StrSize finds the terminator of a stored description, and no earlier one |
| `LoadOption.DecodeOfEncode` | ArmPlatformPkg/Bds/BootOption.c:104-155 | parsing a serialized EFI_LOAD_OPTION returns attributes, description, path cut to its 16-bit length, and optional data; it fails only below 12 bytes |
| `LoadOption.EncodedBytes` | ArmPlatformPkg/Bds/BootOption.c:104-155 | which byte of the serialized option holds what: attributes, path length, two bytes per character, terminator, path, optional data |
| `LoadOption.RoundTripIffShortPath` | ArmPlatformPkg/Bds/BootOption.c:107 | the round trip is exact if and only if the path is shorter than 64 KiB |
| `LoadOption.SetFields` | ArmPlatformPkg/Bds/BootOption.c:84-158 | the allocated buffer is filled exactly, through the advancing pointer |
| `BootCoherence.AllocatedIndexIsFresh` | ArmPkg/Library/BdsLib/BdsLoadOption.c:242-272 | the index given out is unused, and the smallest unused, if and only if BootOrder leaves one free |
| `BootCoherence.AddKeepsAgreement` | ArmPlatformPkg/Bds/BootOption.c:191-221 | adding an option keeps list, BootOrder and Boot#### in step |
| `BootPlaces.AddedPlaces` | ArmPlatformPkg/Bds/BootOption.c:161-230 | for all outcomes of the writes: which entry, index and variable an addition makes, what they decode to, and that nothing else changes |
| `BootCoherence.AddIsCoherentIff` | ArmPlatformPkg/Bds/BootMenu.c:350-355 | exact condition, for all outcomes of the two writes, under which adding keeps them in step |
| `BootCoherence.UpdateIsCoherentIff` | ArmPlatformPkg/Bds/BootOption.c:233-260 | updating keeps them in step exactly when the write succeeds or changes nothing |
| `BootPlaces.UpdatedPlaces` | ArmPlatformPkg/Bds/BootOption.c:233-260 | an update keeps place, index and attributes of the entry, BootOrder and all other entries and variables; description, path and optional data are the new ones |
| `BootCoherence.RemoveIsCoherentIff` | ArmPlatformPkg/Bds/BootMenu.c:369-392 | removing keeps them in step exactly when both writes succeed |
| `BootPlaces.RemovedEntry` | ArmPlatformPkg/Bds/BootMenu.c:369-392 | a removal takes the entry at that place and, of the variables, its Boot#### and its index in BootOrder where the write succeeds |
| `BootPlaces.DroppedPlace` | ArmPlatformPkg/Bds/BootOption.c:279-301 | BootOrder loses the first place that holds the index, its last place if none does |
| `BootCoherence.SelectFindsEntry` | ArmPlatformPkg/Bds/BootMenu.c:147-159 | every number the prompt accepts has an entry in the list |
| `BootPlaces.SelectedNumber` | ArmPlatformPkg/Bds/BootMenu.c:121-145 | the number selected is the first typed that lies in the range of BootOrder, if no input error comes before it |
| `BootCoherence.MovingKeepsTheRest` | ArmPlatformPkg/Bds/BootMenu.c:633-659 | over any keys the list without the selected entry never changes |
| `BootCoherence.CancelRestores` | ArmPlatformPkg/Bds/BootMenu.c:694-700 | cancelling restores the original order after any moves |
| `BootCoherence.UnsavedSessionChangesNothing` | ArmPlatformPkg/Bds/BootMenu.c:688-700 | Escape or a failed save leaves list and variables as they were |
| `BootCoherence.SaveWritesPermutation` | ArmPlatformPkg/Bds/BootMenu.c:661-686 | a successful save writes a permutation of the old BootOrder: the order of the list |
| `BootPlaces.SessionPlaces` | ArmPlatformPkg/Bds/BootMenu.c:613-659 | the place where keys leave an entry: one towards the head for each scan code 1, one towards the tail for each 2, stopping at the ends, up to the first key that ends the session; the others keep their order |
| `BootPlaces.UpSaved` | ArmPlatformPkg/Bds/BootMenu.c:640-686 | after the up arrow and carriage return BootOrder is the old one with places p - 1 and p exchanged |
| `BootPlaces.DownSaved` | ArmPlatformPkg/Bds/BootMenu.c:640-686 | after the down arrow and carriage return places p and p + 1 are exchanged |
| `BootCoherence.InterruptedSessionAgreesIff` | ArmPlatformPkg/Bds/BootMenu.c:628-631 | after a console error list and BootOrder agree exactly when the entry is back in its place |
| `BootCoherence.ReorderKeepsAgreement` | ArmPlatformPkg/Bds/BootMenu.c:579-714 | any number of ended reorder sessions keeps list and variables in step |
| `BootCoherence.RunStaysCoherent` | ArmPlatformPkg/Bds/BootMenu.c:258-714 | over any run of add, update, remove and reorder with successful writes list and variables stay in step, no undefined access happens, and no Boot#### variable is orphaned |
| `BootCoherence.LoadAgreesIff` | ArmPlatformPkg/Bds/BootOption.c:49-80 | the loaded list agrees with the variables exactly when BootOrder repeats nothing and every index has a usable Boot#### |
| `BootPlaces.LoadedPlaces` | ArmPlatformPkg/Bds/BootOption.c:49-80 | each index with a Boot#### of at least twelve bytes becomes the next entry, with that image; the others are skipped |
| `BootCoherence.ReloadIsIdentity` | ArmPlatformPkg/Bds/BootOption.c:68-75 | loading from the variables of a coherent state gives the list back |
| `BootCoherence.AddedOptionReloads` | ArmPlatformPkg/Bds/BootOption.c:161-230 | an added option comes back after a reload as the last entry, and decodes to what was entered |
| `LinkedList.RemoveEntryList` | MdePkg/Library/BaseLib/LinkedList.c:541-550 | unlinking a node leaves the ring without it, and returns its successor |
| `LinkedList.InsertHeadList` | MdePkg/Library/BaseLib/LinkedList.c:169-184 | the node is linked in right behind the given one |
| `LinkedList.InsertTailList` | MdePkg/Library/BaseLib/LinkedList.c:210-225 | the node is linked in right before the given one |
| `LinkedList.SwapListEntries` | MdePkg/Library/BaseLib/LinkedList.c:473-516 | any two nodes, adjacent or not, exchange places and every other node keeps its own |
| `LinkedList.SwapByMoves` | MdePkg/Library/BaseLib/LinkedList.c:489-515 | the three ways of removing and inserting all amount to the exchange |
| `BootMenu.DeleteIndex` | ArmPlatformPkg/Bds/BootOption.c:279-301 | the in-place shift drops the first occurrence, or the last element if there is none |
| `BootMenu.AllocateBootIndex` | ArmPkg/Library/BdsLib/BdsLoadOption.c:242-272 | the double loop finds the smallest unused index, zero if there is none |
| `BootMenu.BootManager.constructor` | ArmPlatformPkg/Bds/BootOption.c:49-80 | the linked list built is the list of the usable options, in BootOrder's order |
| `BootMenu.BootManager.SelectBootOption` | ArmPlatformPkg/Bds/BootMenu.c:96-163 | returns the node with the accepted number, found by following the links; none if the list ends first |
| `BootMenu.BootManager.AddBootOption` | ArmPlatformPkg/Bds/BootMenu.c:350-355 | list and variables change as the machine's step for every outcome of the writes |
| `BootMenu.BootManager.UpdateBootOption` | ArmPlatformPkg/Bds/BootMenu.c:415-547 | the selected entry is rewritten in place; links, order and other entries stay |
| `BootMenu.BootManager.RemoveBootOption` | ArmPlatformPkg/Bds/BootMenu.c:369-392 | the selected node is unlinked and both variables edited as the machine's step |
| `BootMenu.BootManager.MoveSelected` | ArmPlatformPkg/Bds/BootMenu.c:613-659 | the key loop leaves the node at the place counted out by the arrows and ends as the first ending key says; the other nodes keep their order; the list is the machine's |
| `BootMenu.BootManager.PutBack` | ArmPlatformPkg/Bds/BootMenu.c:694-700 | unlinking the entry and linking it behind the noted predecessor restores its place |
| `BootMenu.BootManager.SaveBootOrder` | ArmPlatformPkg/Bds/BootMenu.c:661-686 | BootOrder becomes the indices met along the list |
| `BootMenu.BootManager.ReorderBootOptions` | ArmPlatformPkg/Bds/BootMenu.c:579-714 | the whole dialogue takes the machine's reorder step |
| `FvWalk.FirstExecutable` | CorebootModulePkg/SecCore/FindPeiCore.c:90-135 | the section loop terminates for every memory content and returns the walk's section |
| `FvWalk.FindImageBase` | CorebootModulePkg/SecCore/FindPeiCore.c:31-144 | both loops terminate for every memory content (no address wrapping) and return the walk's status and bases |
| `FvWalk.SectionInside` | CorebootModulePkg/SecCore/FindPeiCore.c:111-134 | a section found is aligned, executable and, header and all, inside its file |
| `FvChain.FindSectionIff` | CorebootModulePkg/SecCore/FindPeiCore.c:95-135 | a section is found if and only if it is the first executable one in the file's chain of aligned, plausible sections |
| `FvChain.WalkIff` | CorebootModulePkg/SecCore/FindPeiCore.c:54-143 | success with given bases if and only if the chain of files reaches a first point with both cores seen, every core up to there executable, and the bases are the images of the last core of each kind |
| `FvChain.BasesByType` | CorebootModulePkg/SecCore/FindPeiCore.c:114-140 | on success the first base is the image of the last file of type 3 in the chain walked, the second of the last of type 4 |
| `FvLayout.SectionReads` | MdePkg/Include/Pi/PiFirmwareFile.h:482-489 | a section written by the format, small or extended, reads back its size, type and data |
| `FvLayout.SectionHeader` | MdePkg/Include/Pi/PiFirmwareFile.h:482-489 | byte by byte: what makes a section executable, extended and plausible, what its size is and where its data starts |
| `FvLayout.FileReads` | MdePkg/Include/Pi/PiFirmwareFile.h:179-186 | a file header written by the format, small or large, reads back size, type and body |
| `FvLayout.FileHeader` | MdePkg/Include/Pi/PiFirmwareFile.h:179-186 | byte by byte: what makes a file a core, large and plausible, what its size is and where its body starts |
| `FvLayout.SectionsFound` | CorebootModulePkg/SecCore/FindPeiCore.c:95-135 | the section loop finds the data of the first executable section laid out |
| `FvLayout.VolumeIsFound` | CorebootModulePkg/SecCore/FindPeiCore.c:54-143 | a volume whose first files are laid out by the format, up to both cores and with an executable section in every core, makes FindImageBase succeed, with bases pointing at their image bytes, whatever follows |
| `MemoryMap.CarveKeepsTotal` | ArmPlatformPkg/MemoryInitPei/MemoryInitPeiLib.c:143-179 | carving keeps the total length of system memory |
| `MemoryMap.CarveKeepsCoverage` | ArmPlatformPkg/MemoryInitPei/MemoryInitPeiLib.c:143-179 | carving keeps the set of bytes covered |
| `MemoryMap.CarveKeepsDisjoint` | ArmPlatformPkg/MemoryInitPei/MemoryInitPeiLib.c:143-179 | carving keeps system memory HOBs disjoint |
| `MemoryMap.TestsMeanContainment` | ArmPlatformPkg/MemoryInitPei/MemoryInitPeiLib.c:127-141 | the comparisons hold if and only if all firmware bytes lie in the main memory, respectively in the HOB |
| `MemoryMap.PieceAttributes` | ArmPlatformPkg/MemoryInitPei/MemoryInitPeiLib.c:143-179 | every piece is system memory with the carved HOB's attributes, and the piece that holds the firmware lacks bit 0 |
| `MemoryMap.CarvePresence` | ArmPlatformPkg/MemoryInitPei/MemoryInitPeiLib.c:147-179 | which bytes are present after carving, in every case |
| `MemoryMap.ClearsExactlyFirmwareIff` | ArmPlatformPkg/MemoryInitPei/MemoryInitPeiLib.c:147-179 | PRESENT is cleared on exactly the firmware's bytes if and only if the HOB is not one that is present and overshoots the memory top |
| `MemoryMap.DeclareKeepsDisjointIff` | ArmPlatformPkg/MemoryInitPei/MemoryInitPeiLib.c:101-122 | declaring the main memory keeps HOBs disjoint exactly when it was declared already or none of its bytes was covered |
| `MemoryMap.AcceptedHobHoldsMainIff` | ArmPlatformPkg/MemoryInitPei/MemoryInitPeiLib.c:104-106 | a HOB that passes for the main memory contains it if and only if it ends exactly at the memory top |
| `MemoryMap.MainMemoryHeldIff` | ArmPlatformPkg/MemoryInitPei/MemoryInitPeiLib.c:101-122 | after the search the HOB that stands for the main memory contains it if and only if none was accepted, so that it was built, or the first accepted one ends exactly at the memory top |
| `MemoryMap.MemoryBelowHidesMainIff` | ArmPlatformPkg/MemoryInitPei/MemoryInitPeiLib.c:101-122 | if all system memory known lies below the main memory, the main memory is covered after the search if and only if there is no such memory; else no byte of it is |
| `MemoryMap.PeimConservesMemory` | ArmPlatformPkg/MemoryInitPei/MemoryInitPeiLib.c:101-187 | over the list with the main memory declared, by the platform or by MemoryPeim: when the assertion fires; otherwise coverage, total length and disjointness are kept, and PRESENT is cleared on exactly the firmware if and only if its HOB is not one that is present and overshoots |
| `MemoryMap.PeimKeepsAttributes` | ArmPlatformPkg/MemoryInitPei/MemoryInitPeiLib.c:101-187 | over the whole list: no attribute but bit 0 changes, HOBs that do not hold the firmware stay, and what is appended comes from the first one that does |
| `MemoryInit.HobList.DeclareMainMemory` | ArmPlatformPkg/MemoryInitPei/MemoryInitPeiLib.c:101-122 | appends one HOB over the main memory with attributes 0x3C07, unless a system memory HOB starts at or below it and ends at or below its end |
| `MemoryInit.HobList.CarveFirmware` | ArmPlatformPkg/MemoryInitPei/MemoryInitPeiLib.c:143-179 | the in-place edits and appended HOBs are the carving |
| `MemoryInit.HobList.MemoryPeim` | ArmPlatformPkg/MemoryInitPei/MemoryInitPeiLib.c:101-187 | both loops together, and when ASSERT(Found) fires |
| `MemoryInit.RegionAvoidsFirmwareIff` | ArmPlatformPkg/MemoryInitPei/MemoryInitPeim.c:114-148 | the chosen region lies in usable memory and clear of the firmware if and only if it is not larger than the usable memory and neither the size assertion nor the firmware's end wraps |
| `MemoryInit.RegionEndsAtTop` | ArmPlatformPkg/MemoryInitPei/MemoryInitPeim.c:114-148 | where the region goes if nothing wraps: it ends at the end of the usable memory, or at the firmware if that lies in it with too little room above and enough below; when there is none |
| `MemoryInit.FullRegionWraps` | ArmPlatformPkg/MemoryInitPei/MemoryInitPeim.c:138-140 | an input for which the assertion wraps and the region falls below system memory |
| `MemoryInit.FirmwareAtTopIsOverlaid` | ArmPlatformPkg/MemoryInitPei/MemoryInitPeim.c:119-134 | an input with firmware ending at 4 GB for which the region is placed over it |
| `MemoryInit.RegionInOnePresentPiece` | ArmPlatformPkg/MemoryInitPei/MemoryInitPeim.c:131-148 | after MemoryPeim, over the list with the main memory declared by the platform or by itself, the chosen region lies wholly in one present piece of the map |
| `MemoryInit.RegionInDeclaredMemory` | ArmPlatformPkg/MemoryInitPei/MemoryInitPeim.c:131-148 | in particular when no system memory was known before |
| `FdtPci.LastIoMeans` | ArmVirtPkg/VirtFdtDxe/VirtFdtDxe.c:218-228 | what the last I/O record is, by position |
| `FdtPci.BigEndian` | ArmVirtPkg/VirtFdtDxe/VirtFdtDxe.c:164-165 | numbers in the tree are read with their most significant byte first |
| `FdtPci.UsableIff` | ArmVirtPkg/VirtFdtDxe/VirtFdtDxe.c:164-254 | a node is usable if and only if the bytes of its properties describe a bus range, configuration space for it, a last I/O window and a last MMIO32 window that are not empty, and identity MMIO32 windows below 4 GB only |
| `FdtPci.StoredWindows` | ArmVirtPkg/VirtFdtDxe/VirtFdtDxe.c:256-268 | each PCD is the number at its place in the properties |
| `FdtPci.PcdDatabase.ProcessPciHost` | ArmVirtPkg/VirtFdtDxe/VirtFdtDxe.c:149-275 | succeeds exactly for nodes whose bytes describe two windows and then stores the numbers found there; failures store nothing; when it is EFI_UNSUPPORTED |
| `FdtPci.ParsedWindows` | ArmVirtPkg/VirtFdtDxe/VirtFdtDxe.c:185-254 | success means a non-empty identity-mapped MMIO32 window below 4 GB, a non-empty I/O window, and a MiB of configuration space per bus |
| `PciPlatform.ApertureFields` | ArmVirtPkg/PciHostBridgeDxe/PciHostBridge.c:112-124 | the aperture ends at the records' last addresses, and the translation, wrapped or not, maps the first port to the CPU base |
| `PciPlatform.PortReachesCpu` | ArmVirtPkg/PciHostBridgeDxe/PciRootBridgeIo.c:998-1016 | every accepted port access reaches CpuBase + (port - ChildBase) of the device tree record, inside its CPU window |
| `PciPlatform.ParsedCopyIsMemmove` | ArmVirtPkg/PciHostBridgeDxe/PciRootBridgeIo.c:1519-1584 | on the aperture of every usable device tree node every successful CopyMem is a memmove |
| `PciPlatform.ParsedApertureIsReached` | ArmVirtPkg/PciHostBridgeDxe/PciHostBridge.c:112-124 | memory apertures of usable nodes, and I/O apertures whose window does not wrap, meet what the two results on apertures ask of the GCD's search |
| `PciPlatform.AccessibleIff` | ArmVirtPkg/PciHostBridgeDxe/PciHostBridge.c:361-463 | from device tree to bus: after every protocol run of highest grants every aligned access inside an allocated window is accepted by root bridge I/O, and ports reach the CPU window, if and only if the GCD has no address of that type below the aperture base |

## Left out

* The GCD map itself and the page and pool allocators: their choices are arguments constrained by their contract.
* Memory attributes set on the MMIO range, protocol installation, driver binding, device paths as objects, TPL raising, timers and status codes: calls into services that are not part of this model.
* Console texts and prompts of the boot manager; what the user types and the keys pressed are arguments.
- BootMenu.BootManager.AddBootOption: starts where the menu has the user's answers; the Linux loader questions before it are not modelled.
- BootMenu.BootManager.UpdateBootOption: likewise; the reuse of optional data that lies in the load option buffer freed at `ArmPlatformPkg/Bds/BootOption.c:100-102` is not modelled.
- LoadOption.DecodeOfEncode: a buffer without a terminated description, or shorter than the path it announces, has undefined behaviour in C and is refused here.
- BootCoherence.RunStaysCoherent: assumes successful variable writes, free indices and ended reorder sessions; the other cases are the `...Iff` lemmas.
* A BootOrder variable of odd size, and failures to read a variable that exists.
* Starting a boot option, BootNext, the FDT menu and the Linux loader.
- FrameBuffer.VideoDevice.Blt: source rectangles on screen and sums of coordinates below 2^64 are the caller's duty, as in the source; CopyMem is taken as a memmove. What a read leaves is stated byte by byte for strides that hold a row. Reading pixels needs four bytes per pixel, since the source reads four. The scan line length is taken as not cut off; a one-row screen with a longer one is not covered.
* The mode query functions of the blitter and the EDID handling.
- RootBridgeIo.TransferLoop: stands for three copies of the same loop; accesses go to memory that keeps what is written, not to device registers with side effects.
- RootBridgeIo.IoRW: asks that no single element of an accepted access straddles the end of the address space; `IoElementsFit` says when.
- RootBridgeIo.PciRW: the address parts that PCI_LIB_ADDRESS joins with OR occupy different bits and are added.
* PollMem, PollIo, Flush, GetAttributes, SetAttributes, Configuration, AllocateBuffer, FreeBuffer, StartBusEnumeration, SetBusNumbers and PreprocessController: short functions or loops over hardware time.
- RootBridgeMap.DmaService.Map: address ranges of the host buffer do not wrap.
- Gcd.Allocate: which free range is chosen and the status of a failure are the answer's; the GCD map is not modelled. `TopDownRun` restricts the answers of a run to the highest range.
- HostBridgeAperture.InApertureIff: the search passes over an entry of the GCD map that starts too close to the limit (`MdeModulePkg/Core/Dxe/Gcd/Gcd.c:1169-1171`); how much that takes off the top is a parameter (`Passing`). An aperture without addresses is covered if the search reaches the limit.
- PciPlatform.AccessibleIff: likewise, with `ParsedApertureIsReached`.
- RootBridgeDma.BusMasterReadSees: for runs whose bus-master writes are mapped from host memory above 4 GB or on pages of others; `BufferHoldsLastStores` holds for all runs whose write-backs miss the buffer.
- HostBridgeConservation.FreeRestoresInitialGcd: for answers that refuse no free; `FreeIsExactIff` covers the others.
- HostBridge.HostBridgeInstance.SubmitResources: the stream is readable up to its first byte other than 0x8A, as the scan demands.
- HostBridge.HostBridgeInstance.GetProposedResources: node values fit in 64 bits, which `ProposalResubmits` shows in every reachable state.
- HostBridge.HostBridgeInstance.NotifyPhase: the assertion behind a failed Mem32 allocation is taken as compiled out.
- FvWalk.FindImageBase: the volume lies low enough that no address computation wraps (`NoWrap`).
- FvLayout.VolumeIsFound: checksums, file state bits and padding files with special meaning are not looked at by the source and not modelled.
* PE/COFF entry points and debug reporting after the cores are found.
- MemoryInit.HobList.MemoryPeim: resource descriptors only; memory allocation HOBs, the MMU set-up and the memory type information HOB are not modelled.
- MemoryMap.PeimConservesMemory: no HOB wraps the address space, and the list with the main memory declared is disjoint, which `DeclareKeepsDisjointIff` reduces to the platform's list.
- MemoryInit.RegionAvoidsFirmwareIff: every byte of the firmware device is addressable.
- FdtPci.PcdDatabase.ProcessPciHost: the flattened device tree is given as the node's property values.
- PciPlatform.PortReachesCpu: the I/O window wraps neither on the bus nor on the CPU side.
* SEC start-up code, caches, interrupt controllers, LZMA and cryptographic wrappers, and the Python build tools.
