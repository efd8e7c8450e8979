/** What is in the bounce buffers over any interleaving of Map, Unmap and stores: what Map put there and
    what was stored there since, as long as no write-back of another mapping reaches them. */
module RootBridgeDma {
  import opened Words
  import opened Efi
  import opened RootBridgeCopy
  import opened RootBridgeMap

  /** Host memory and the allocators. */
  datatype World = World(mem: seq<u8>, d: Dma)

  /** A call, or a store: by a processor, or by a bus master at a device address. */
  datatype Action = Call(e: Event) | Store(address: nat, data: seq<u8>)

  /** The ranges a call or a store names lie in memory, and only live mappings are unmapped. */
  predicate Possible(w: World, a: Action) {
    match a
    case Store(address, data) => address + |data| <= |w.mem|
    case Call(e) =>
      && FOUR_GB <= |w.mem|
      && Callable(w.d, e)
      && match e
         case MapEvent(_, host, n, _, _) => host + n <= |w.mem|
         case UnmapEvent(mapping) => mapping.Some? ==> RangesFit(w.d.maps[mapping.value], |w.mem|)
  }

  function StoreMemory(mem: seq<u8>, address: nat, data: seq<u8>): (r: seq<u8>)
    requires address + |data| <= |mem|
    ensures |r| == |mem|
    ensures forall a :: 0 <= a < |mem| ==>
      r[a] == if address <= a < address + |data| then data[a - address] else mem[a]
  {
    mem[..address] + data + mem[address + |data|..]
  }

  function Act(w: World, a: Action): (r: World)
    requires Possible(w, a)
    ensures |r.mem| == |w.mem|
  {
    match a
    case Store(address, data) => World(StoreMemory(w.mem, address, data), w.d)
    case Call(e) =>
      World(match e
            case MapEvent(op, host, n, pool, first) => MapMemory(w.mem, w.d, op, host, n, pool, first)
            case UnmapEvent(mapping) => UnmapMemory(w.mem, w.d, mapping),
            Step(w.d, e))
  }

  ghost predicate RunPossible(w: World, run: seq<Action>)
    decreases |run|
  {
    run != [] ==> Possible(w, run[0]) && RunPossible(Act(w, run[0]), run[1..])
  }

  function RunOf(w: World, run: seq<Action>): (r: World)
    requires RunPossible(w, run)
    ensures |r.mem| == |w.mem|
    decreases |run|
  {
    if run == [] then w else RunOf(Act(w, run[0]), run[1..])
  }

  // ----- the invariant, with memory

  /** The allocators' invariant, and both ranges of every live mapping in memory. */
  ghost predicate WorldInv(w: World, others: set<nat>) {
    && FOUR_GB <= |w.mem| <= TWO64
    && Inv(w.d, others)
    && forall h :: h in w.d.maps ==> RangesFit(w.d.maps[h], |w.mem|)
  }

  lemma NewMappingFits(d: Dma, op: u32, host: u64, n: u64, pool: Reply, first: Reply, length: nat)
    requires FOUR_GB <= length && host + n <= length
    ensures var (d', r) := MapStep(d, op, host, n, pool, first);
            forall h :: h in d'.maps && (h !in d.maps || d'.maps[h] != d.maps[h]) ==> RangesFit(d'.maps[h], length)
  {
    BytesFitPages(n);
    hide BouncePages, SizeToPages;
  }

  lemma ActKeepsInv(w: World, others: set<nat>, a: Action)
    requires WorldInv(w, others) && Possible(w, a)
    ensures WorldInv(Act(w, a), others)
  {
    hide Inv, RangesFit, MapMemory, UnmapMemory, MapStep;
    match a
    case Store(_, _) =>
    case Call(MapEvent(op, host, n, pool, first)) =>
      MapKeepsInv(w.d, others, op, host, n, pool, first);
      NewMappingFits(w.d, op, host, n, pool, first, |w.mem|);
    case Call(UnmapEvent(mapping)) =>
      UnmapKeepsInv(w.d, others, mapping);
  }

  /** Every run from a memory of at least 4 GB, with nothing mapped, keeps the invariant; and unmapping a
      live mapping is always possible. */
  lemma {:induction false} RunKeepsInv(w: World, others: set<nat>, run: seq<Action>)
    requires WorldInv(w, others) && RunPossible(w, run)
    ensures WorldInv(RunOf(w, run), others)
    decreases |run|
  {
    hide WorldInv, Act, Possible;
    if run != [] {
      ActKeepsInv(w, others, run[0]);
      RunKeepsInv(Act(w, run[0]), others, run[1..]);
    }
  }

  // ----- bytes of a buffer

  predicate InBuffer(m: MapInfo, a: int) {
    m.mappedHostAddress <= a < m.mappedHostAddress + m.numberOfBytes
  }

  predicate InHost(m: MapInfo, a: int) {
    m.hostAddress <= a < m.hostAddress + m.numberOfBytes
  }

  predicate Covers(act: Action, a: int) {
    act.Store? && act.address <= a < act.address + |act.data|
  }

  function StoredAt(act: Action, a: int): u8
    requires Covers(act, a)
  {
    act.data[a - act.address]
  }

  /** The byte at a after the run, had the run consisted of its stores only. */
  function LastStored(b: u8, run: seq<Action>, a: int): u8
    decreases |run|
  {
    if run == [] then b
    else LastStored(if Covers(run[0], a) then StoredAt(run[0], a) else b, run[1..], a)
  }

  /** LastStored, by position: what the last store that covers a put there (k is its place in the run), or
      what was there before, if there is none (k is -1). */
  lemma {:induction false} LastStoredMeans(b: u8, run: seq<Action>, a: int, k: int)
    requires -1 <= k < |run| && (k >= 0 ==> Covers(run[k], a))
    requires forall i :: k < i < |run| ==> !Covers(run[i], a)
    ensures LastStored(b, run, a) == if k < 0 then b else StoredAt(run[k], a)
    decreases |run|
  {
    hide Covers;
    if run != [] {
      var b' := if Covers(run[0], a) then StoredAt(run[0], a) else b;
      assert forall i :: 0 <= i < |run| - 1 ==> run[1..][i] == run[i + 1];
      LastStoredMeans(b', run[1..], a, if k > 0 then k - 1 else -1);
    }
  }

  /** The call writes back into a host range that contains byte a. */
  predicate WritesBack(w: World, act: Action, a: int)
    requires Possible(w, act)
  {
    && act.Call? && act.e.UnmapEvent? && act.e.mapping.Some?
    && IsWrite(w.d.maps[act.e.mapping.value].operation) && InHost(w.d.maps[act.e.mapping.value], a)
  }

  /** No write-back of the run reaches byte a. */
  ghost predicate WriteBacksMiss(w: World, run: seq<Action>, a: int)
    requires RunPossible(w, run)
    decreases |run|
  {
    run != [] ==> !WritesBack(w, run[0], a) && WriteBacksMiss(Act(w, run[0]), run[1..], a)
  }

  function UnmapOf(h: nat): Action {
    Call(UnmapEvent(Some(h)))
  }

  /** What Map does, if it does anything: a fresh mapping, and a copy into its buffer at most. */
  lemma MapEffect(mem: seq<u8>, d: Dma, op: u32, host: u64, n: u64, pool: Reply, first: Reply) returns (m: MapInfo)
    requires FOUR_GB <= |mem| && host + n <= |mem|
    ensures m.mappedHostAddress % PAGE_SIZE == 0 && m.numberOfPages == SizeToPages(m.numberOfBytes)
    ensures var d' := MapStep(d, op, host, n, pool, first).0;
            var mem' := MapMemory(mem, d, op, host, n, pool, first);
            (&& BouncePages(m) !! d.pages
             && (forall h :: h in d.maps ==> h in d'.maps && d'.maps[h] == d.maps[h])
             && forall a :: 0 <= a < |mem| && !InBuffer(m, a) ==> mem'[a] == mem[a])
            || (d' == d && mem' == mem)
  {
    hide PageSpan, Bounced, FailureStatus, Moved;
    if op < OPERATION_MAXIMUM && Bounced(host, n) && !IsCommon(op) && PoolGranted(d, pool)
       && PagesGranted(d, first, SizeToPages(n)) {
      BytesFitPages(n);
      m := MapInfo(op, n, SizeToPages(n), host, first.value * PAGE_SIZE);
      MovedOutside(mem, m.mappedHostAddress, host, n);
    } else {
      m := MapInfo(op, 0, 0, host, 0);
    }
  }

  lemma MovedOutside(mem: seq<u8>, dst: nat, src: nat, n: nat)
    requires dst + n <= |mem| && src + n <= |mem|
    ensures |Moved(mem, dst, src, n)| == |mem|
    ensures forall a :: 0 <= a < |mem| && !(dst <= a < dst + n) ==> Moved(mem, dst, src, n)[a] == mem[a]
  {
  }

  lemma MovedAt(mem: seq<u8>, dst: nat, src: nat, n: nat, i: nat)
    requires dst + n <= |mem| && src + n <= |mem| && i < n
    ensures |Moved(mem, dst, src, n)| == |mem| && Moved(mem, dst, src, n)[dst + i] == mem[src + i]
  {
    assert Moved(mem, dst, src, n)[dst..dst + n][i] == mem[src..src + n][i];
  }

  /** A copy into a fresh bounce buffer leaves live buffers alone. */
  lemma MapMisses(w: World, others: set<nat>, h: nat, a: int, op: u32, host: u64, n: u64, pool: Reply, first: Reply)
    requires WorldInv(w, others) && h in w.d.maps && InBuffer(w.d.maps[h], a) && host + n <= |w.mem|
    ensures 0 <= a < |w.mem| && MapMemory(w.mem, w.d, op, host, n, pool, first)[a] == w.mem[a]
    ensures var d' := MapStep(w.d, op, host, n, pool, first).0; h in d'.maps && d'.maps[h] == w.d.maps[h]
  {
    LivePage(w, others, h, a);
    hide WorldInv, MapStep, MapMemory, BouncePages, InBuffer;
    var m := MapEffect(w.mem, w.d, op, host, n, pool, first);
    if InBuffer(m, a) {
      BufferPage(m, a);
    }
  }

  lemma LivePage(w: World, others: set<nat>, h: nat, a: int)
    requires WorldInv(w, others) && h in w.d.maps && InBuffer(w.d.maps[h], a)
    ensures FOUR_GB <= |w.mem| && 0 <= a < FOUR_GB && a / PAGE_SIZE in BouncePages(w.d.maps[h]) && a / PAGE_SIZE in w.d.pages
    ensures a / PAGE_SIZE !in others
    ensures forall k :: k in w.d.maps && k != h ==> a / PAGE_SIZE !in BouncePages(w.d.maps[k])
  {
    BufferPage(w.d.maps[h], a);
    hide BouncePages;
  }

  /** A byte of a bounce buffer lies on one of its pages, below 4 GB. */
  lemma BufferPage(m: MapInfo, a: int)
    requires InBuffer(m, a) && m.mappedHostAddress % PAGE_SIZE == 0 && m.numberOfPages == SizeToPages(m.numberOfBytes)
    ensures a / PAGE_SIZE in BouncePages(m)
    ensures MapInfoOk(m) ==> a < FOUR_GB
  {
    BytesFitPages(m.numberOfBytes);
  }

  /** One action, seen from a byte of a live buffer. */
  lemma ActOnBuffer(w: World, others: set<nat>, act: Action, h: nat, a: int)
    requires WorldInv(w, others) && Possible(w, act) && act != UnmapOf(h)
    requires h in w.d.maps && InBuffer(w.d.maps[h], a) && !WritesBack(w, act, a)
    ensures var w' := Act(w, act);
            && h in w'.d.maps && w'.d.maps[h] == w.d.maps[h]
            && a < |w.mem| && w'.mem[a] == if Covers(act, a) then StoredAt(act, a) else w.mem[a]
  {
    LivePage(w, others, h, a);
    match act
    case Store(_, _) =>
      hide WorldInv, BouncePages, InBuffer;
    case Call(MapEvent(op, host, n, pool, first)) =>
      MapMisses(w, others, h, a, op, host, n, pool, first);
      hide WorldInv, MapMemory, MapStep, BouncePages, InBuffer;
    case Call(UnmapEvent(mapping)) =>
      UnmapMisses(w, mapping, h, a);
      hide WorldInv, UnmapMemory, BouncePages, InBuffer;
  }

  lemma UnmapMisses(w: World, mapping: Option<nat>, h: nat, a: int)
    requires Possible(w, Call(UnmapEvent(mapping))) && !WritesBack(w, Call(UnmapEvent(mapping)), a)
    requires 0 <= a < |w.mem| && h in w.d.maps && mapping != Some(h)
    ensures var w' := Act(w, Call(UnmapEvent(mapping)));
            h in w'.d.maps && w'.d.maps[h] == w.d.maps[h] && w'.mem[a] == w.mem[a]
  {
    hide Moved, BouncePages;
    if mapping.Some? {
      var m := w.d.maps[mapping.value];
      MovedOutside(w.mem, m.hostAddress, m.mappedHostAddress, m.numberOfBytes);
    }
  }

  /** Over any interleaving that does not unmap h and whose write-backs miss its buffer, every byte of the
      buffer is what the last store into it left, or what was there at the start. */
  lemma {:induction false} BufferHoldsLastStores(w: World, others: set<nat>, run: seq<Action>, h: nat, a: int)
    requires WorldInv(w, others) && RunPossible(w, run)
    requires h in w.d.maps && InBuffer(w.d.maps[h], a) && UnmapOf(h) !in run
    requires WriteBacksMiss(w, run, a)
    ensures var w' := RunOf(w, run);
            && WorldInv(w', others) && h in w'.d.maps && w'.d.maps[h] == w.d.maps[h]
            && a < |w.mem| && w'.mem[a] == LastStored(w.mem[a], run, a)
    decreases |run|
  {
    hide WorldInv, Act, Possible, WritesBack, Covers;
    if run == [] {
      LivePage(w, others, h, a);
    } else {
      ActKeepsInv(w, others, run[0]);
      ActOnBuffer(w, others, run[0], h, a);
      BufferHoldsLastStores(Act(w, run[0]), others, run[1..], h, a);
    }
  }

  // ----- write-backs that cannot reach a bounce buffer

  /** No byte of the host range lies on a page that the allocator could hand out below 4 GB: it lies
      above, or on a page that belongs to others. */
  ghost predicate HostOwned(host: int, n: int, others: set<nat>) {
    forall a {:trigger a / PAGE_SIZE} :: host <= a < host + n && a < FOUR_GB ==> a / PAGE_SIZE in others
  }

  ghost predicate MappingsOwned(d: Dma, others: set<nat>) {
    forall h :: h in d.maps && IsWrite(d.maps[h].operation) ==>
      HostOwned(d.maps[h].hostAddress, d.maps[h].numberOfBytes, others)
  }

  /** Every bus-master write that the run maps comes with memory its caller owns. */
  ghost predicate RunOwned(run: seq<Action>, others: set<nat>) {
    forall act :: act in run ==> ActionOwned(act, others)
  }

  ghost predicate ActionOwned(act: Action, others: set<nat>) {
    act.Call? && act.e.MapEvent? && IsWrite(act.e.op) ==> HostOwned(act.e.host, act.e.n, others)
  }

  lemma ActKeepsOwned(w: World, act: Action, others: set<nat>)
    requires Possible(w, act) && MappingsOwned(w.d, others) && ActionOwned(act, others)
    ensures MappingsOwned(Act(w, act).d, others)
  {
    hide HostOwned, BouncePages, SizeToPages, MapMemory, UnmapMemory;
  }

  /** Owned host memory and live bounce buffers have no byte in common. */
  lemma OwnedMisses(w: World, others: set<nat>, act: Action, h: nat, a: int)
    requires WorldInv(w, others) && MappingsOwned(w.d, others) && Possible(w, act)
    requires h in w.d.maps && InBuffer(w.d.maps[h], a)
    ensures !WritesBack(w, act, a)
  {
    LivePage(w, others, h, a);
    hide WorldInv, BouncePages, SizeToPages;
    assert a < FOUR_GB && a / PAGE_SIZE !in others;
  }

  lemma {:induction false} OwnedRunMisses(w: World, others: set<nat>, run: seq<Action>, h: nat, a: int)
    requires WorldInv(w, others) && RunPossible(w, run)
    requires MappingsOwned(w.d, others) && RunOwned(run, others)
    requires h in w.d.maps && InBuffer(w.d.maps[h], a) && UnmapOf(h) !in run
    ensures WriteBacksMiss(w, run, a)
    decreases |run|
  {
    hide WorldInv, Act, Possible, WritesBack, Covers, MappingsOwned, ActionOwned;
    if run != [] {
      ActKeepsInv(w, others, run[0]);
      OwnedMisses(w, others, run[0], h, a);
      ActOnBuffer(w, others, run[0], h, a);
      ActKeepsOwned(w, run[0], others);
      OwnedRunMisses(Act(w, run[0]), others, run[1..], h, a);
    }
  }

  // ----- the promises, over whole runs

  /** Nothing is mapped; `others` are the pages that somebody has allocated. */
  predicate Fresh(w: World, others: set<nat>) {
    FOUR_GB <= |w.mem| <= TWO64 && w.d == Dma(others, map[])
  }

  /** Every state of a run that maps owned memory only. */
  lemma {:induction false} OwnedRunKeeps(w: World, others: set<nat>, run: seq<Action>)
    requires WorldInv(w, others) && MappingsOwned(w.d, others) && RunPossible(w, run) && RunOwned(run, others)
    ensures WorldInv(RunOf(w, run), others) && MappingsOwned(RunOf(w, run).d, others)
    decreases |run|
  {
    hide WorldInv, MappingsOwned, Act, Possible, ActionOwned;
    if run != [] {
      ActKeepsInv(w, others, run[0]);
      ActKeepsOwned(w, run[0], others);
      OwnedRunKeeps(Act(w, run[0]), others, run[1..]);
    }
  }

  lemma FreshInv(w: World, others: set<nat>)
    requires Fresh(w, others)
    ensures WorldInv(w, others) && MappingsOwned(w.d, others)
  {
  }

  /** The mapping a Map call returns, if it goes through a bounce buffer. */
  predicate Returns(w: World, e: Event, h: nat, m: MapInfo)
    requires Possible(w, Call(e)) && e.MapEvent?
  {
    var (d', r) := MapStep(w.d, e.op, e.host, e.n, e.pool, e.first);
    r.status.Success? && r.mapping == Some(h) && h in d'.maps && d'.maps[h] == m
  }

  /** What is known of a mapping when Map returns it. */
  lemma Returned(w: World, e: Event, h: nat, m: MapInfo, i: nat)
    requires Possible(w, Call(e)) && e.MapEvent? && Returns(w, e, h, m) && i < e.n
    ensures var r := MapStep(w.d, e.op, e.host, e.n, e.pool, e.first).1;
            && r.deviceAddress == m.mappedHostAddress && m.hostAddress == e.host && m.numberOfBytes == e.n && m.operation == e.op
            && m.mappedHostAddress + e.n <= |w.mem| && InBuffer(m, m.mappedHostAddress + i)
            && Act(w, Call(e)).mem[m.mappedHostAddress + i]
               == if IsRead(e.op) then w.mem[e.host + i] else w.mem[m.mappedHostAddress + i]
  {
    ReturnedFields(w, e, h, m);
    ReturnedMemory(w, e, h, m);
    hide MapStep, MapMemory, Moved, Returns;
    if IsRead(e.op) {
      MovedAt(w.mem, m.mappedHostAddress, e.host, e.n, i);
    }
  }

  lemma ReturnedFields(w: World, e: Event, h: nat, m: MapInfo)
    requires Possible(w, Call(e)) && e.MapEvent? && Returns(w, e, h, m)
    ensures FOUR_GB <= |w.mem| && e.host + e.n <= |w.mem|
    ensures var r := MapStep(w.d, e.op, e.host, e.n, e.pool, e.first).1;
            && r.status.Success? && r.mapping.Some? && r.deviceAddress == m.mappedHostAddress
            && m.hostAddress == e.host && m.numberOfBytes == e.n && m.operation == e.op
    ensures m.mappedHostAddress + e.n <= |w.mem|
  {
    BytesFitPages(e.n);
    hide SizeToPages, BouncePages, PageSpan;
  }

  lemma ReturnedMemory(w: World, e: Event, h: nat, m: MapInfo)
    requires Possible(w, Call(e)) && e.MapEvent? && Returns(w, e, h, m)
    ensures e.host + e.n <= |w.mem| && m.mappedHostAddress + e.n <= |w.mem|
    ensures Act(w, Call(e)).mem == if IsRead(e.op) then Moved(w.mem, m.mappedHostAddress, e.host, e.n) else w.mem
  {
    ReturnedFields(w, e, h, m);
    hide MapStep, Moved;
  }

  /** In any run from a fresh state, a bus master that reads finds at the device address the host bytes as
      they were when Map was called, except where something was stored into the buffer since. */
  lemma BusMasterReadSees(w0: World, others: set<nat>, before: seq<Action>, e: Event, h: nat, m: MapInfo,
                          after: seq<Action>, i: nat)
    requires Fresh(w0, others) && RunPossible(w0, before) && RunOwned(before, others)
    requires var w := RunOf(w0, before);
             && e.MapEvent? && Possible(w, Call(e)) && IsRead(e.op) && Returns(w, e, h, m)
             && RunPossible(Act(w, Call(e)), after) && RunOwned(after, others) && UnmapOf(h) !in after
    requires i < e.n
    ensures var w, w' := RunOf(w0, before), RunOf(Act(RunOf(w0, before), Call(e)), after);
            var a := m.mappedHostAddress + i;
            && a < |w'.mem| && w'.mem[a] == LastStored(w.mem[e.host + i], after, a)
  {
    hide WorldInv, MappingsOwned, Act, Possible, HostOwned, MapStep, RunOf;
    FreshInv(w0, others);
    OwnedRunKeeps(w0, others, before);
    MappedBufferKept(RunOf(w0, before), others, e, h, m, after, i);
  }

  lemma ReturnedIsLive(w: World, e: Event, h: nat, m: MapInfo)
    requires e.MapEvent? && Possible(w, Call(e)) && Returns(w, e, h, m)
    ensures |Act(w, Call(e)).mem| == |w.mem| && h in Act(w, Call(e)).d.maps && Act(w, Call(e)).d.maps[h] == m
  {
    hide MapStep, MapMemory;
  }

  lemma MappedBufferKept(w: World, others: set<nat>, e: Event, h: nat, m: MapInfo, after: seq<Action>, i: nat)
    requires WorldInv(w, others) && MappingsOwned(w.d, others)
    requires e.MapEvent? && Possible(w, Call(e)) && ActionOwned(Call(e), others) && Returns(w, e, h, m)
    requires RunPossible(Act(w, Call(e)), after) && RunOwned(after, others) && UnmapOf(h) !in after && i < e.n
    ensures var w', a := RunOf(Act(w, Call(e)), after), m.mappedHostAddress + i;
            && WorldInv(w', others) && h in w'.d.maps && w'.d.maps[h] == m
            && a < |w.mem| == |w'.mem|
            && w'.mem[a] == LastStored(if IsRead(e.op) then w.mem[e.host + i] else w.mem[a], after, a)
  {
    hide WorldInv, MappingsOwned, Act, Possible, ActionOwned, MapStep, InBuffer, WriteBacksMiss, Returns, RunOf, RunOwned,
         LastStored, RunPossible;
    Returned(w, e, h, m, i);
    ActKeepsInv(w, others, Call(e));
    ActKeepsOwned(w, Call(e), others);
    ReturnedIsLive(w, e, h, m);
    var w1 := Act(w, Call(e));
    OwnedRunMisses(w1, others, after, h, m.mappedHostAddress + i);
    BufferHoldsLastStores(w1, others, after, h, m.mappedHostAddress + i);
  }

  /** In any run from a fresh state, unmapping a bus master's write is possible, and leaves in the host
      range the bytes of the buffer as the device left them: what was last stored there since Map, or
      what the pages held before.  Nothing else changes. */
  lemma BusMasterWriteDelivers(w0: World, others: set<nat>, before: seq<Action>, e: Event, h: nat, m: MapInfo,
                               after: seq<Action>, i: nat)
    requires Fresh(w0, others) && RunPossible(w0, before) && RunOwned(before, others)
    requires var w := RunOf(w0, before);
             && e.MapEvent? && Possible(w, Call(e)) && IsWrite(e.op) && HostOwned(e.host, e.n, others) && Returns(w, e, h, m)
             && RunPossible(Act(w, Call(e)), after) && RunOwned(after, others) && UnmapOf(h) !in after
    requires i < e.n
    ensures var w, w' := RunOf(w0, before), RunOf(Act(RunOf(w0, before), Call(e)), after);
            && Possible(w', UnmapOf(h))
            && var w'', a := Act(w', UnmapOf(h)), m.mappedHostAddress + i;
            && a < |w.mem| && w''.mem[e.host + i] == LastStored(w.mem[a], after, a)
            && forall b :: 0 <= b < |w.mem| && !(e.host <= b < e.host + e.n) ==> w''.mem[b] == w'.mem[b]
  {
    hide WorldInv, MappingsOwned, Act, Possible, HostOwned, MapStep, RunOf;
    FreshInv(w0, others);
    OwnedRunKeeps(w0, others, before);
    var w := RunOf(w0, before);
    MappedBufferKept(w, others, e, h, m, after, i);
    Returned(w, e, h, m, i);
    Delivered(RunOf(Act(w, Call(e)), after), others, h, i);
  }

  lemma Delivered(w: World, others: set<nat>, h: nat, i: nat)
    requires WorldInv(w, others) && h in w.d.maps && IsWrite(w.d.maps[h].operation) && i < w.d.maps[h].numberOfBytes
    ensures Possible(w, UnmapOf(h))
    ensures var w', m := Act(w, UnmapOf(h)), w.d.maps[h];
            && RangesFit(m, |w.mem|)
            && w'.mem[m.hostAddress + i] == w.mem[m.mappedHostAddress + i]
            && forall b :: 0 <= b < |w.mem| && !InHost(m, b) ==> w'.mem[b] == w.mem[b]
  {
    hide Inv, Moved, BouncePages;
    var m := w.d.maps[h];
    MovedAt(w.mem, m.hostAddress, m.mappedHostAddress, m.numberOfBytes, i);
    MovedOutside(w.mem, m.hostAddress, m.mappedHostAddress, m.numberOfBytes);
  }

  // ----- when a write-back can reach another bounce buffer

  /** While h stays mapped, no other mapping ever has a buffer byte in its host range. */
  ghost predicate NeverReached(d: Dma, h: nat, m: MapInfo) {
    forall es, d', k, a ::
      Reaches(d, es, d') && UnmapEvent(Some(h)) !in es && k in d'.maps && k != h && InBuffer(d'.maps[k], a) ==> !InHost(m, a)
  }

  lemma {:induction false} StaysMapped(d: Dma, others: set<nat>, es: seq<Event>, d': Dma, h: nat)
    requires Inv(d, others) && Reaches(d, es, d') && h in d.maps && UnmapEvent(Some(h)) !in es
    ensures Inv(d', others) && h in d'.maps && d'.maps[h] == d.maps[h]
    decreases |es|
  {
    hide Inv, BouncePages, SizeToPages, Grantable;
    if es != [] {
      match es[0] {
        case MapEvent(op, host, n, pool, first) => MapKeepsInv(d, others, op, host, n, pool, first);
        case UnmapEvent(mapping) => UnmapKeepsInv(d, others, mapping);
      }
      StaysMapped(Step(d, es[0]), others, es[1..], d', h);
    }
  }

  /** Two mappings of one state: where one has a buffer byte, the other's page is not, nor one of others. */
  lemma BufferApart(d: Dma, others: set<nat>, h: nat, k: nat, a: int)
    requires Inv(d, others) && h in d.maps && k in d.maps && h != k && InBuffer(d.maps[k], a)
    ensures 0 <= a < FOUR_GB && a / PAGE_SIZE !in others && a / PAGE_SIZE !in BouncePages(d.maps[h])
  {
    BufferPage(d.maps[k], a);
    hide BouncePages;
  }

  lemma UnusedHandle(handles: set<nat>) returns (k: nat)
    ensures forall h :: h in handles ==> h < k
  {
    k := 0;
    if h :| h in handles {
      var rest := handles - {h};
      k := UnusedHandle(rest);
      k := if h < k then k else h + 1;
      assert forall x :: x in handles ==> x == h || x in rest;
    }
  }

  /** A Map that is given the free page of this byte. */
  lemma FreePageIsReached(d: Dma, h: nat, m: MapInfo, a: nat) returns (e: Event, k: nat)
    requires h in d.maps && d.maps[h] == m && FOUR_GB < m.hostAddress + m.numberOfBytes < TWO64
    requires a < FOUR_GB && a / PAGE_SIZE !in d.pages
    ensures e.MapEvent? && k != h
    ensures var d' := Step(d, e); k in d'.maps && InBuffer(d'.maps[k], a)
  {
    k := UnusedHandle(d.maps.Keys);
    e := MapEvent(BUS_MASTER_READ, m.hostAddress + m.numberOfBytes - PAGE_SIZE, PAGE_SIZE, Address(k), Address(a / PAGE_SIZE));
    assert SizeToPages(PAGE_SIZE) == 1 && PageSpan(a / PAGE_SIZE, 0) == {};
    assert PagesGranted(d, e.first, 1);
    hide BouncePages;
  }

  /** Once the mapping that may hold the page of a stray host byte is gone, the next Map can be given it. */
  lemma StrayIsReached(d: Dma, others: set<nat>, h: nat, m: MapInfo, a: nat)
    requires Inv(d, others) && h in d.maps && d.maps[h] == m
    requires FOUR_GB < m.hostAddress + m.numberOfBytes < TWO64
    requires InHost(m, a) && a < FOUR_GB && a / PAGE_SIZE !in others + BouncePages(m)
    ensures !NeverReached(d, h, m)
  {
    hide BouncePages, InBuffer, InHost;
    if a / PAGE_SIZE in d.pages {
      var k :| k in d.maps && a / PAGE_SIZE in BouncePages(d.maps[k]);
      var d1 := Step(d, UnmapEvent(Some(k)));
      var e, k' := FreePageIsReached(d1, h, m, a);
      TwoCalls(d, UnmapEvent(Some(k)), e);
      assert UnmapEvent(Some(h)) !in [UnmapEvent(Some(k)), e];
      assert k' in Step(d1, e).maps && InBuffer(Step(d1, e).maps[k'], a);
    } else {
      var e, k := FreePageIsReached(d, h, m, a);
      OneCall(d, e);
      assert UnmapEvent(Some(h)) !in [e];
      assert k in Step(d, e).maps && InBuffer(Step(d, e).maps[k], a);
    }
  }

  lemma OneCall(d: Dma, e: Event)
    requires Callable(d, e)
    ensures Reaches(d, [e], Step(d, e))
  {
    assert [e][1..] == [];
  }

  lemma TwoCalls(d: Dma, e: Event, f: Event)
    requires Callable(d, e) && Callable(Step(d, e), f)
    ensures Reaches(d, [e, f], Step(Step(d, e), f))
  {
    OneCall(Step(d, e), f);
    assert [e, f][1..] == [f];
  }

  /** The write-back of a bus-master write, mapped in any state, can never reach another bounce buffer if
      and only if every byte of its host range lies above 4 GB, on a page of others, or on one of its own
      pages. */
  lemma WriteBackMissesIff(d0: Dma, others: set<nat>, op: u32, host: u64, n: u64, pool: Reply, first: Reply, h: nat)
    requires Inv(d0, others) && host + n <= TWO64
    requires var (d, r) := MapStep(d0, op, host, n, pool, first);
             r.status.Success? && r.mapping == Some(h)
    ensures var d := MapStep(d0, op, host, n, pool, first).0;
            && h in d.maps
            && (NeverReached(d, h, d.maps[h]) <==> HostOwned(host, n, others + BouncePages(d.maps[h])))
  {
    MappedMeans(d0, op, host, n, pool, first, h);
    MapKeepsInv(d0, others, op, host, n, pool, first);
    hide MapStep, Inv, NeverReached, HostOwned, BouncePages;
    var d := MapStep(d0, op, host, n, pool, first).0;
    MappingMissesIff(d, others, h, d.maps[h]);
  }

  /** A mapping that Map returns went through a bounce buffer, so its host range ends above 4 GB. */
  lemma MappedMeans(d0: Dma, op: u32, host: u64, n: u64, pool: Reply, first: Reply, h: nat)
    requires host + n <= TWO64
    requires var r := MapStep(d0, op, host, n, pool, first).1; r.status.Success? && r.mapping == Some(h)
    ensures var d := MapStep(d0, op, host, n, pool, first).0;
            h in d.maps && d.maps[h].hostAddress == host && d.maps[h].numberOfBytes == n
    ensures FOUR_GB < host + n < TWO64
  {
    hide BouncePages, SizeToPages, Grantable;
  }

  lemma MappingMissesIff(d: Dma, others: set<nat>, h: nat, m: MapInfo)
    requires Inv(d, others) && h in d.maps && d.maps[h] == m
    requires FOUR_GB < m.hostAddress + m.numberOfBytes < TWO64
    ensures NeverReached(d, h, m) <==> HostOwned(m.hostAddress, m.numberOfBytes, others + BouncePages(m))
  {
    hide BouncePages, Inv, Reaches, NeverReached;
    if HostOwned(m.hostAddress, m.numberOfBytes, others + BouncePages(m)) {
      OwnedIsNeverReached(d, others, h, m);
    } else {
      var a :| m.hostAddress <= a < m.hostAddress + m.numberOfBytes && a < FOUR_GB && a / PAGE_SIZE !in others + BouncePages(m);
      StrayIsReached(d, others, h, m, a);
    }
  }

  lemma OwnedIsNeverReached(d: Dma, others: set<nat>, h: nat, m: MapInfo)
    requires Inv(d, others) && h in d.maps && d.maps[h] == m
    requires HostOwned(m.hostAddress, m.numberOfBytes, others + BouncePages(m))
    ensures NeverReached(d, h, m)
  {
    hide BouncePages, Inv, Reaches;
    forall es, d', k, a
      | Reaches(d, es, d') && UnmapEvent(Some(h)) !in es && k in d'.maps && k != h && InBuffer(d'.maps[k], a)
      ensures !InHost(m, a)
    {
      StaysMapped(d, others, es, d', h);
      BufferApart(d', others, h, k, a);
    }
  }
}
