/** RootBridgeIoCopyMem: built from one-element reads and writes, and yet a memmove. */
module RootBridgeCopy {
  import opened Words
  import opened Efi
  import opened RootBridgeIo
  import opened Slices

  /** One element may be accessed at this address. */
  predicate Reachable(ap: Apertures, size: nat, address: u64)
    requires size > 0
  {
    address % size == 0 && ap.memBase <= address && address + size <= ap.memLimit + 1
  }

  lemma OneElement(ap: Apertures, width: nat, address: u64)
    requires Normal(width)
    ensures Acceptable(ap, MemOperation, width, address, 1, false) <==> Reachable(ap, ElementSize(width), address)
    ensures TargetExtent(width, 1) == BufferExtent(width, 1) == ElementSize(width)
  {
  }

  /** The destination bytes after a memmove of n bytes; everything else as before. */
  function Moved(mem: seq<u8>, dst: nat, src: nat, n: nat): (r: seq<u8>)
    requires dst + n <= |mem| && src + n <= |mem|
    ensures |r| == |mem|
    ensures r[dst..dst + n] == mem[src..src + n]
    ensures forall a :: 0 <= a < |mem| && !(dst <= a < dst + n) ==> r[a] == mem[a]
  {
    Patch(mem, dst, mem[src..src + n])
  }

  /** Growing a copy upwards by one element is sound if the element read is not yet overwritten. */
  lemma MoveUp(mem: seq<u8>, dst: nat, src: nat, o: nat, size: nat)
    requires dst + o + size <= |mem| && src + o + size <= |mem|
    requires dst <= src || src + o + size <= dst
    ensures var m := Moved(mem, dst, src, o);
            Patch(m, dst + o, m[src + o..src + o + size]) == Moved(mem, dst, src, o + size)
  {
    hide Patch;
    var m := Moved(mem, dst, src, o);
    assert m[src + o..src + o + size] == mem[src + o..src + o + size];
    assert mem[src..src + o + size] == mem[src..src + o] + mem[src + o..src + o + size];
    PatchTwice(mem, dst, mem[src..src + o], mem[src + o..src + o + size]);
  }

  /** Growing a copy downwards by one element, towards lower addresses. */
  lemma MoveDown(mem: seq<u8>, dst: nat, src: nat, lo: nat, o: nat, size: nat)
    requires size <= lo && dst + lo + o <= |mem| && src + lo + o <= |mem|
    requires src <= dst
    ensures var m := Moved(mem, dst + lo, src + lo, o);
            Patch(m, dst + lo - size, m[src + lo - size..src + lo]) == Moved(mem, dst + lo - size, src + lo - size, o + size)
  {
    hide Patch;
    var m := Moved(mem, dst + lo, src + lo, o);
    var d, e := mem[src + lo - size..src + lo], mem[src + lo..src + lo + o];
    assert m[src + lo - size..src + lo] == d;
    assert mem[src + lo - size..src + lo + o] == d + e;
    PatchBefore(mem, dst + lo - size, d, e);
  }

  /** Read one element into Result and write it out again. */
  method CopyElement(ap: Apertures, mem: array<u8>, result: array<u8>, width: u32, dst: u64, src: u64) returns (status: EfiStatus)
    requires mem.Length == TWO64 && mem != result && result.Length == 8 && Normal(width)
    modifies mem, result
    ensures status == Success <==> Reachable(ap, ElementSize(width), src) && Reachable(ap, ElementSize(width), dst)
    ensures status != Success ==> mem[..] == old(mem[..])
    ensures status == Success ==>
      && src + ElementSize(width) <= mem.Length && dst + ElementSize(width) <= mem.Length
      && mem[..] == old(Patch(mem[..], dst, mem[..][src..src + ElementSize(width)]))
  {
    OneElement(ap, width, src);
    OneElement(ap, width, dst);
    ghost var trace;
    status, trace := MemRW(ap, mem, result, false, width, src, 1);
    if status.IsError() {
      return;
    }
    assert result[..][..ElementSize(width)] == mem[..][src..src + ElementSize(width)];
    status, trace := MemRW(ap, mem, result, true, width, dst, 1);
  }

  /** Both runs stay inside the 2^64-byte address space. */
  predicate Flat(dst: u64, src: u64, n: nat) {
    dst + n <= TWO64 && src + n <= TWO64
  }

  /** The address of the element handled in round i: upwards from a, or downwards from the last. */
  function RoundAddress(a: u64, size: nat, count: u64, i: nat, up: bool): u64 {
    Wrap64(if up then a + i * size else a + (count - 1) * size - i * size)
  }

  lemma RoundStep(a: u64, size: nat, count: u64, i: nat, up: bool)
    ensures up ==> Wrap64(RoundAddress(a, size, count, i, up) as int + size) == RoundAddress(a, size, count, i + 1, up)
    ensures !up ==> Wrap64(RoundAddress(a, size, count, i, up) as int - size) == RoundAddress(a, size, count, i + 1, up)
  {
    hide Wrap64;
    var o, last := i * size, (count - 1) * size;
    assert (i + 1) * size == o + size;
    if up {
      WrapSum(a + o, size);
    } else {
      WrapDifference(a + last - o, size);
      assert a + last - o - size == a + last - (o + size);
    }
  }

  lemma WrapDifference(x: int, y: int)
    ensures Wrap64(Wrap64(x) as int - y) == Wrap64(x - y)
  {
  }

  lemma RoundInFlat(a: u64, size: nat, count: u64, i: nat, up: bool)
    requires i < count && a + count * size <= TWO64 && size > 0
    ensures RoundAddress(a, size, count, i, up) == if up then a + i * size else a + count * size - size - i * size
    ensures i * size + size <= count * size
  {
    hide Wrap64;
    ElementEnds(size, count, i);
    NotWrapped(if up then a + i * size else a + (count - 1) * size - i * size);
  }

  /** Every element of the run may be accessed. */
  ghost predicate RunReachable(ap: Apertures, a: u64, size: nat, count: u64, i: nat, up: bool)
    requires size > 0
  {
    forall k :: 0 <= k < i ==> Reachable(ap, size, RoundAddress(a, size, count, k, up))
  }

  lemma NoRoundsYet(ap: Apertures, src: u64, dst: u64, size: nat, count: u64)
    requires size > 0
    ensures forall up :: RunReachable(ap, src, size, count, 0, up) && RunReachable(ap, dst, size, count, 0, up)
  {
  }

  /** A run reaches one element further exactly when that element may be accessed. */
  lemma OneMoreRound(ap: Apertures, a: u64, size: nat, count: u64, i: nat, up: bool)
    requires size > 0 && i < count && RunReachable(ap, a, size, count, i, up)
    ensures RunReachable(ap, a, size, count, i + 1, up) <==> Reachable(ap, size, RoundAddress(a, size, count, i, up))
  {
  }

  /** The memory window is not the whole address space. */
  predicate WindowHasEdge(ap: Apertures) {
    ap.memLimit < MAX_UINT64 || ap.memBase > 0
  }

  /** Unless the window is the whole address space, a run all of whose elements are reachable cannot
      have wrapped: it is flat and lies in the window. */
  lemma {:induction false} ReachableRunIsFlat(ap: Apertures, a: u64, size: nat, count: u64, i: nat, up: bool)
    requires size in {1, 2, 4, 8} && 0 < i <= count && WindowHasEdge(ap)
    requires RunReachable(ap, a, size, count, i, up)
    ensures up ==> ap.memBase <= a && RoundAddress(a, size, count, i - 1, up) == a + (i - 1) * size
                   && a + i * size <= ap.memLimit + 1
    ensures !up ==> RoundAddress(a, size, count, i - 1, up) + i * size <= ap.memLimit + 1
    decreases i
  {
    hide RoundAddress, Reachable;
    var last := RoundAddress(a, size, count, i - 1, up);
    assert Reachable(ap, size, last);
    ReachableMeans(ap, size, last);
    assert (i - 1) * size + size == i * size;
    if i == 1 {
      FirstRound(a, size, count);
    } else {
      var before := RoundAddress(a, size, count, i - 2, up);
      ReachableRunIsFlat(ap, a, size, count, i - 1, up);
      assert Reachable(ap, size, before);
      RoundStep(a, size, count, i - 2, up);
      NoWrap(ap, before, size);
      assert (i - 2) * size + size == (i - 1) * size;
    }
  }

  lemma FirstRound(a: u64, size: nat, count: u64)
    ensures RoundAddress(a, size, count, 0, true) == a
  {
  }

  lemma ReachableMeans(ap: Apertures, size: nat, a: u64)
    requires size > 0 && Reachable(ap, size, a)
    ensures ap.memBase <= a && a + size <= ap.memLimit + 1
  {
  }

  /** Stepping from a reachable address to a reachable address does not wrap. */
  lemma NoWrap(ap: Apertures, a: u64, size: nat)
    requires size in {1, 2, 4, 8} && WindowHasEdge(ap) && Reachable(ap, size, a)
    ensures Reachable(ap, size, Wrap64(a + size)) ==> Wrap64(a + size) == a + size
    ensures Reachable(ap, size, Wrap64(a - size)) ==> Wrap64(a - size) == a - size
  {
  }

  /** What the loop has done to `was` once o of the n bytes are copied. */
  ghost predicate Progress(mem: seq<u8>, was: seq<u8>, dst: nat, src: nat, n: nat, o: nat, up: bool) {
    && |mem| == |was| && dst + n <= |was| && src + n <= |was| && o <= n
    && mem == if up then Moved(was, dst, src, o) else Moved(was, dst + (n - o), src + (n - o), o)
  }

  /** The direction test of the source, whose sum is taken modulo 2^64. */
  predicate Ascending(dst: u64, src: u64, n: nat) {
    !(dst > src && dst < Wrap64(src + n))
  }

  lemma AscendingMeans(dst: u64, src: u64, n: nat)
    requires Flat(dst, src, n)
    ensures if Ascending(dst, src, n) then dst <= src || src + n <= dst else src <= dst
  {
  }

  lemma ProgressStart(was: seq<u8>, dst: nat, src: nat, n: nat, up: bool)
    requires dst + n <= |was| && src + n <= |was|
    ensures Progress(was, was, dst, src, n, 0, up)
  {
    PatchNothing(was, dst);
    PatchNothing(was, dst + n);
    assert was[src..src] == [] && was[src + n..src + n] == [];
  }

  lemma ProgressUp(mem: seq<u8>, was: seq<u8>, dst: nat, src: nat, n: nat, o: nat, size: nat)
    requires o + size <= n && (dst <= src || src + n <= dst)
    requires Progress(mem, was, dst, src, n, o, true)
    ensures Progress(Patch(mem, dst + o, mem[src + o..src + o + size]), was, dst, src, n, o + size, true)
  {
    hide Moved, Patch;
    MoveUp(was, dst, src, o, size);
  }

  lemma ProgressDown(mem: seq<u8>, was: seq<u8>, dst: nat, src: nat, n: nat, o: nat, size: nat)
    requires o + size <= n && src <= dst
    requires Progress(mem, was, dst, src, n, o, false)
    ensures var d, s := dst + n - size - o, src + n - size - o;
            Progress(Patch(mem, d, mem[s..s + size]), was, dst, src, n, o + size, false)
  {
    hide Moved, Patch;
    MoveDown(was, dst, src, n - o, o, size);
    assert dst + (n - o) - size == dst + n - size - o == dst + (n - (o + size));
  }

  lemma ProgressStep(mem: seq<u8>, was: seq<u8>, dst: nat, src: nat, n: nat, o: nat, size: nat, up: bool)
    requires o + size <= n && if up then dst <= src || src + n <= dst else src <= dst
    requires Progress(mem, was, dst, src, n, o, up)
    ensures var d, s := if up then dst + o else dst + n - size - o, if up then src + o else src + n - size - o;
            && d + size <= |mem| && s + size <= |mem|
            && Progress(Patch(mem, d, mem[s..s + size]), was, dst, src, n, o + size, up)
  {
    hide Moved, Patch;
    if up {
      ProgressUp(mem, was, dst, src, n, o, size);
    } else {
      ProgressDown(mem, was, dst, src, n, o, size);
    }
  }

  lemma FlatStep(mem: seq<u8>, was: seq<u8>, dst: u64, src: u64, n: nat, o: nat, size: nat)
    requires |mem| == |was| == TWO64 && Flat(dst, src, n) && o + size <= n
    requires Progress(mem, was, dst, src, n, o, Ascending(dst, src, n))
    ensures var up := Ascending(dst, src, n);
            var d, s := if up then dst + o else dst + n - size - o, if up then src + o else src + n - size - o;
            Progress(Patch(mem, d, mem[s..s + size]), was, dst, src, n, o + size, up)
  {
    hide Moved, Patch, Ascending, Progress;
    AscendingMeans(dst, src, n);
    ProgressStep(mem, was, dst, src, n, o, size, Ascending(dst, src, n));
  }

  /** One round of the loop on a flat copy. */
  lemma RoundProgress(m: seq<u8>, was: seq<u8>, dst: u64, src: u64, size: nat, count: u64, i: nat)
    requires |was| == |m| == TWO64 && size > 0 && i < count && Flat(dst, src, count * size)
    requires i * size <= count * size
    requires Progress(m, was, dst, src, count * size, i * size, Ascending(dst, src, count * size))
    ensures var up := Ascending(dst, src, count * size);
            var d, s := RoundAddress(dst, size, count, i, up), RoundAddress(src, size, count, i, up);
            && d + size <= |m| && s + size <= |m| && 0 <= (i + 1) * size <= count * size
            && Progress(Patch(m, d, m[s..s + size]), was, dst, src, count * size, (i + 1) * size, up)
  {
    hide Patch, Moved, Ascending, Progress, RoundAddress;
    var n, o, up := count * size, i * size, Ascending(dst, src, count * size);
    assert (i + 1) * size == o + size;
    RoundInFlat(src, size, count, i, up);
    RoundInFlat(dst, size, count, i, up);
    FlatStep(m, was, dst, src, n, o, size);
  }

  // ----- what the rounds do to memory, wherever their addresses fall

  /** Every element of the run lies in a memory of this length. */
  ghost predicate RunFits(length: nat, a: u64, size: nat, count: u64, i: nat, up: bool) {
    forall k :: 0 <= k < i ==> RoundAddress(a, size, count, k, up) + size <= length
  }

  lemma ReachableFits(ap: Apertures, a: u64, size: nat, count: u64, i: nat, up: bool)
    requires size > 0 && RunReachable(ap, a, size, count, i, up)
    ensures RunFits(TWO64, a, size, count, i, up)
  {
    hide RoundAddress;
    forall k | 0 <= k < i ensures RoundAddress(a, size, count, k, up) + size <= TWO64 {
      assert Reachable(ap, size, RoundAddress(a, size, count, k, up));
    }
  }

  /** Memory after the first i rounds: each reads one element and writes it, as things stand then. */
  ghost function Rounds(was: seq<u8>, dst: u64, src: u64, size: nat, count: u64, i: nat, up: bool): (r: seq<u8>)
    requires RunFits(|was|, src, size, count, i, up) && RunFits(|was|, dst, size, count, i, up)
    ensures |r| == |was|
  {
    if i == 0 then was
    else
      var m, s := Rounds(was, dst, src, size, count, i - 1, up), RoundAddress(src, size, count, i - 1, up);
      Patch(m, RoundAddress(dst, size, count, i - 1, up), m[s..s + size])
  }

  lemma NextRound(was: seq<u8>, dst: u64, src: u64, size: nat, count: u64, i: nat, up: bool)
    requires RunFits(|was|, src, size, count, i + 1, up) && RunFits(|was|, dst, size, count, i + 1, up)
    ensures var m, s := Rounds(was, dst, src, size, count, i, up), RoundAddress(src, size, count, i, up);
            && s + size <= |was| && RoundAddress(dst, size, count, i, up) + size <= |was|
            && Rounds(was, dst, src, size, count, i + 1, up)
               == Patch(m, RoundAddress(dst, size, count, i, up), m[s..s + size])
  {
    hide Patch, RoundAddress;
  }

  /** A round whose two elements may be accessed takes both runs one element further; no other does. */
  lemma RoundTaken(ap: Apertures, was: seq<u8>, dst: u64, src: u64, size: nat, count: u64, i: nat, up: bool)
    requires |was| == TWO64 && size > 0 && i < count
    requires RunReachable(ap, src, size, count, i, up) && RunReachable(ap, dst, size, count, i, up)
    requires RunFits(TWO64, src, size, count, i, up) && RunFits(TWO64, dst, size, count, i, up)
    ensures var d, s := RoundAddress(dst, size, count, i, up), RoundAddress(src, size, count, i, up);
            if Reachable(ap, size, s) && Reachable(ap, size, d) then
              && RunReachable(ap, src, size, count, i + 1, up) && RunReachable(ap, dst, size, count, i + 1, up)
              && RunFits(TWO64, src, size, count, i + 1, up) && RunFits(TWO64, dst, size, count, i + 1, up)
              && s + size <= TWO64 && d + size <= TWO64
              && var m := Rounds(was, dst, src, size, count, i, up);
              Rounds(was, dst, src, size, count, i + 1, up) == Patch(m, d, m[s..s + size])
            else
              !(RunReachable(ap, src, size, count, i + 1, up) && RunReachable(ap, dst, size, count, i + 1, up))
  {
    hide Patch, RoundAddress, Reachable, RunReachable, RunFits, Rounds;
    OneMoreRound(ap, src, size, count, i, up);
    OneMoreRound(ap, dst, size, count, i, up);
    var d, s := RoundAddress(dst, size, count, i, up), RoundAddress(src, size, count, i, up);
    if Reachable(ap, size, s) && Reachable(ap, size, d) {
      ReachableFits(ap, src, size, count, i + 1, up);
      ReachableFits(ap, dst, size, count, i + 1, up);
      NextRound(was, dst, src, size, count, i, up);
    }
  }

  /** On a flat copy the rounds make the memmove grow element by element. */
  lemma {:induction false} FlatRounds(was: seq<u8>, dst: u64, src: u64, size: nat, count: u64, n: nat, i: nat, up: bool)
    requires |was| == TWO64 && size > 0 && i <= count
    requires n == count * size && Flat(dst, src, n) && up == Ascending(dst, src, n)
    requires RunFits(|was|, src, size, count, i, up) && RunFits(|was|, dst, size, count, i, up)
    ensures i * size <= n && Progress(Rounds(was, dst, src, size, count, i, up), was, dst, src, n, i * size, up)
    decreases i
  {
    hide Patch, Moved, Ascending, Progress, RoundAddress, Flat, RunFits, Rounds;
    if i == 0 {
      NoRounds(was, dst, src, size, count, up);
      FlatMeans(dst, src, n);
      ProgressStart(was, dst, src, n, up);
    } else {
      FitsBefore(|was|, src, size, count, i - 1, up);
      FitsBefore(|was|, dst, size, count, i - 1, up);
      FlatRounds(was, dst, src, size, count, n, i - 1, up);
      NextRound(was, dst, src, size, count, i - 1, up);
      RoundProgress(Rounds(was, dst, src, size, count, i - 1, up), was, dst, src, size, count, i - 1);
    }
  }

  lemma NoRounds(was: seq<u8>, dst: u64, src: u64, size: nat, count: u64, up: bool)
    ensures RunFits(|was|, src, size, count, 0, up) && RunFits(|was|, dst, size, count, 0, up)
    ensures Rounds(was, dst, src, size, count, 0, up) == was
  {
  }

  lemma FitsBefore(length: nat, a: u64, size: nat, count: u64, i: nat, up: bool)
    requires RunFits(length, a, size, count, i + 1, up)
    ensures RunFits(length, a, size, count, i, up)
  {
  }

  lemma FlatMeans(dst: u64, src: u64, n: nat)
    requires Flat(dst, src, n)
    ensures dst + n <= TWO64 && src + n <= TWO64
  {
  }

  /** RootBridgeIoCopyMem, after `done` rounds.  It stops at the first element that may not be accessed,
      and a copy that succeeds is a memmove unless the window is the whole address space. */
  method CopyMem(ap: Apertures, mem: array<u8>, width: u32, dst0: u64, src0: u64, count: u64)
    returns (status: EfiStatus, ghost done: nat)
    requires mem.Length == TWO64
    modifies mem
    ensures width >= 4 ==> status == InvalidParameter && mem[..] == old(mem[..])
    ensures width < 4 && dst0 == src0 ==> status == Success && mem[..] == old(mem[..])
    ensures width < 4 && dst0 != src0 ==>
      var size := ElementSize(width);
      var up := Ascending(dst0, src0, count * size);
      && done <= count && (status == Success <==> done == count)
      && RunReachable(ap, src0, size, count, done, up) && RunReachable(ap, dst0, size, count, done, up)
      && (done < count ==> !(RunReachable(ap, src0, size, count, done + 1, up) && RunReachable(ap, dst0, size, count, done + 1, up)))
      && RunFits(TWO64, src0, size, count, done, up) && RunFits(TWO64, dst0, size, count, done, up)
      && mem[..] == Rounds(old(mem[..]), dst0, src0, size, count, done, up)
      && (status == Success && WindowHasEdge(ap) ==>
            Flat(dst0, src0, count * size) && mem[..] == Moved(old(mem[..]), dst0, src0, count * size))
  {
    hide Moved, RoundAddress, ElementSize, RunReachable, RunFits, Flat, Rounds, WindowHasEdge;
    done := 0;
    if width > WIDTH_UINT64 {
      return InvalidParameter, 0;
    }
    if dst0 == src0 {
      return Success, 0;
    }
    var stride := ElementSize(width);
    var dstAddress, srcAddress := dst0, src0;
    var direction := true;
    if dst0 > src0 && dst0 < Wrap64(src0 + count * stride) {
      direction := false;
      srcAddress := Wrap64(src0 + (count - 1) * stride);
      dstAddress := Wrap64(dst0 + (count - 1) * stride);
    }
    ghost var was := mem[..];
    RoundZero(src0, stride, count, direction);
    RoundZero(dst0, stride, count, direction);
    status, done := CopyElements(ap, mem, width, dstAddress, srcAddress, count, direction, dst0, src0);
    if status.IsError() {
      return;
    }
    if WindowHasEdge(ap) {
      EdgeCopyMoves(ap, was, dst0, src0, stride, count);
    }
  }

  /** The loop, from the first round's addresses on. */
  method CopyElements(ap: Apertures, mem: array<u8>, width: u32, dstAddress0: u64, srcAddress0: u64, count: u64,
                      direction: bool, ghost dst: u64, ghost src: u64)
    returns (status: EfiStatus, ghost done: nat)
    requires mem.Length == TWO64 && Normal(width)
    requires dstAddress0 == RoundAddress(dst, ElementSize(width), count, 0, direction)
    requires srcAddress0 == RoundAddress(src, ElementSize(width), count, 0, direction)
    modifies mem
    ensures var size := ElementSize(width);
      && done <= count && (status == Success <==> done == count)
      && RunReachable(ap, src, size, count, done, direction) && RunReachable(ap, dst, size, count, done, direction)
      && (done < count ==>
            !(RunReachable(ap, src, size, count, done + 1, direction) && RunReachable(ap, dst, size, count, done + 1, direction)))
      && RunFits(TWO64, src, size, count, done, direction) && RunFits(TWO64, dst, size, count, done, direction)
      && mem[..] == Rounds(old(mem[..]), dst, src, size, count, done, direction)
  {
    hide Patch, RoundAddress, Reachable, ElementSize, RunReachable, RunFits, Rounds;
    var stride := ElementSize(width);
    var dstAddress, srcAddress := dstAddress0, srcAddress0;
    ghost var was := mem[..];
    NoRoundsYet(ap, src, dst, stride, count);
    NoRounds(was, dst, src, stride, count, direction);
    done := 0;
    var result := new u8[8](_ => 0);
    var index: nat := 0;
    while index < count
      invariant done == index <= count && |mem[..]| == TWO64
      invariant srcAddress == RoundAddress(src, stride, count, index, direction)
      invariant dstAddress == RoundAddress(dst, stride, count, index, direction)
      invariant RunReachable(ap, src, stride, count, index, direction)
      invariant RunReachable(ap, dst, stride, count, index, direction)
      invariant RunFits(TWO64, src, stride, count, index, direction) && RunFits(TWO64, dst, stride, count, index, direction)
      invariant mem[..] == Rounds(was, dst, src, stride, count, index, direction)
    {
      RoundStep(src, stride, count, index, direction);
      RoundStep(dst, stride, count, index, direction);
      status := CopyElement(ap, mem, result, width, dstAddress, srcAddress);
      RoundTaken(ap, was, dst, src, stride, count, index, direction);
      if status.IsError() {
        return;
      }
      if direction {
        srcAddress := Wrap64(srcAddress as int + stride);
        dstAddress := Wrap64(dstAddress as int + stride);
      } else {
        srcAddress := Wrap64(srcAddress as int - stride);
        dstAddress := Wrap64(dstAddress as int - stride);
      }
      index, done := index + 1, done + 1;
    }
    status := Success;
  }

  lemma EdgeCopyMoves(ap: Apertures, was: seq<u8>, dst: u64, src: u64, size: nat, count: u64)
    requires |was| == TWO64 && size in {1, 2, 4, 8} && WindowHasEdge(ap)
    requires var up := Ascending(dst, src, count * size);
             RunReachable(ap, src, size, count, count, up) && RunReachable(ap, dst, size, count, count, up)
    ensures dst + count * size <= TWO64 && src + count * size <= TWO64
    ensures var up := Ascending(dst, src, count * size);
            && Flat(dst, src, count * size)
            && RunFits(TWO64, src, size, count, count, up) && RunFits(TWO64, dst, size, count, count, up)
            && Rounds(was, dst, src, size, count, count, up) == Moved(was, dst, src, count * size)
  {
    hide RunReachable, RunFits, Ascending, Rounds, Moved, Flat, WindowHasEdge;
    var up := Ascending(dst, src, count * size);
    SuccessfulCopyIsFlat(ap, dst, src, size, count, up);
    ReachableFits(ap, src, size, count, count, up);
    ReachableFits(ap, dst, size, count, count, up);
    FlatCopyMoves(was, dst, src, size, count);
  }

  lemma FlatCopyMoves(was: seq<u8>, dst: u64, src: u64, size: nat, count: u64)
    requires |was| == TWO64 && size > 0 && Flat(dst, src, count * size)
    requires var up := Ascending(dst, src, count * size);
             RunFits(|was|, src, size, count, count, up) && RunFits(|was|, dst, size, count, count, up)
    ensures dst + count * size <= TWO64 && src + count * size <= TWO64
    ensures Rounds(was, dst, src, size, count, count, Ascending(dst, src, count * size))
         == Moved(was, dst, src, count * size)
  {
    hide Rounds, Moved, Ascending, RunFits, Progress;
    var up := Ascending(dst, src, count * size);
    FlatRounds(was, dst, src, size, count, count * size, count, up);
    ProgressEnd(Rounds(was, dst, src, size, count, count, up), was, dst, src, count * size, up);
  }

  lemma RoundZero(a: u64, size: nat, count: u64, up: bool)
    ensures RoundAddress(a, size, count, 0, up) == Wrap64(if up then a else a + (count - 1) * size)
  {
  }

  lemma ProgressEnd(mem: seq<u8>, was: seq<u8>, dst: nat, src: nat, n: nat, up: bool)
    requires Progress(mem, was, dst, src, n, n, up)
    ensures mem == Moved(was, dst, src, n)
  {
  }

  /** A run of count elements lies in the memory window and is aligned. */
  predicate RunInWindow(ap: Apertures, a: u64, size: nat, count: u64)
    requires size > 0
  {
    count > 0 ==> a % size == 0 && ap.memBase <= a && a + count * size <= ap.memLimit + 1
  }

  lemma MultipleStaysAligned(a: int, k: int, size: nat)
    requires size in {1, 2, 4, 8} && a % size == 0
    ensures (a + k * size) % size == 0
  {
    if size == 1 {} else if size == 2 {} else if size == 4 {} else {}
  }

  /** Unless the window is the whole address space the copy's per-element checks pass exactly when both
      whole runs are aligned and inside the window; in particular no run that wraps slips through. */
  lemma CopyWindows(ap: Apertures, a: u64, size: nat, count: u64, up: bool)
    requires size in {1, 2, 4, 8} && WindowHasEdge(ap)
    ensures RunReachable(ap, a, size, count, count, up) <==> RunInWindow(ap, a, size, count)
  {
    hide RoundAddress, Reachable, WindowHasEdge;
    if count > 0 {
      if RunReachable(ap, a, size, count, count, up) {
        ReachableRunIsFlat(ap, a, size, count, count, up);
        LastRound(a, size, count, up);
        assert Reachable(ap, size, RoundAddress(a, size, count, count - 1, up));
        assert Reachable(ap, size, RoundAddress(a, size, count, 0, up));
        StartsAligned(ap, size, a);
      }
      if RunInWindow(ap, a, size, count) {
        forall k | 0 <= k < count
          ensures Reachable(ap, size, RoundAddress(a, size, count, k, up))
        {
          WindowReaches(ap, a, size, count, k, up);
        }
      }
    }
  }

  lemma StartsAligned(ap: Apertures, size: nat, a: u64)
    requires size > 0 && Reachable(ap, size, a)
    ensures a % size == 0 && ap.memBase <= a
  {
  }

  lemma WindowReaches(ap: Apertures, a: u64, size: nat, count: u64, k: nat, up: bool)
    requires size in {1, 2, 4, 8} && k < count && RunInWindow(ap, a, size, count)
    ensures Reachable(ap, size, RoundAddress(a, size, count, k, up))
  {
    hide RoundAddress;
    RoundInFlat(a, size, count, k, up);
    MultipleStaysAligned(a, if up then k else count - 1 - k, size);
    assert (count - 1 - k) * size == count * size - size - k * size;
  }

  /** The downward run ends, and the upward run starts, at the address asked for. */
  lemma LastRound(a: u64, size: nat, count: u64, up: bool)
    requires count > 0
    ensures RoundAddress(a, size, count, if up then 0 else count - 1, up) == a
  {
  }

  lemma SuccessfulCopyIsFlat(ap: Apertures, dst: u64, src: u64, size: nat, count: u64, up: bool)
    requires size in {1, 2, 4, 8} && WindowHasEdge(ap)
    requires RunReachable(ap, src, size, count, count, up) && RunReachable(ap, dst, size, count, count, up)
    ensures Flat(dst, src, count * size)
  {
    CopyWindows(ap, src, size, count, up);
    CopyWindows(ap, dst, size, count, up);
  }

  // ----- when the copy is a memmove

  /** Byte j of the run that starts at a, in an address space that wraps. */
  function ByteOf(mem: seq<u8>, a: u64, j: nat): u8
    requires |mem| == TWO64
  {
    mem[Wrap64(a + j)]
  }

  /** Every destination byte is the source byte as it was, and no other byte has changed. */
  ghost predicate IsMemmove(mem: seq<u8>, was: seq<u8>, dst: u64, src: u64, n: nat)
    requires |mem| == |was| == TWO64
  {
    && (forall j: nat :: j < n ==> ByteOf(mem, dst, j) == ByteOf(was, src, j))
    && (forall a: u64 :: Wrap64(a - dst) >= n ==> mem[a] == was[a])
  }

  lemma MovedIsMemmove(was: seq<u8>, dst: u64, src: u64, n: nat)
    requires |was| == TWO64 && Flat(dst, src, n)
    ensures IsMemmove(Moved(was, dst, src, n), was, dst, src, n)
  {
    var mem := Moved(was, dst, src, n);
    forall j: nat | j < n ensures ByteOf(mem, dst, j) == ByteOf(was, src, j) {
      assert mem[dst..dst + n][j] == was[src..src + n][j];
    }
    forall a: u64 | Wrap64(a - dst) >= n ensures mem[a] == was[a] {
      assert !(dst <= a < dst + n);
    }
  }

  /** The copy of this call, should every element be reachable, is a memmove. */
  ghost predicate CopyMoves(ap: Apertures, was: seq<u8>, dst: u64, src: u64, size: nat, count: u64)
    requires |was| == TWO64 && size > 0
  {
    var up := Ascending(dst, src, count * size);
    dst != src && RunReachable(ap, src, size, count, count, up) && RunReachable(ap, dst, size, count, count, up) ==>
      && RunFits(TWO64, src, size, count, count, up) && RunFits(TWO64, dst, size, count, count, up)
      && IsMemmove(Rounds(was, dst, src, size, count, count, up), was, dst, src, count * size)
  }

  lemma EdgeMoves(ap: Apertures, was: seq<u8>, dst: u64, src: u64, size: nat, count: u64)
    requires |was| == TWO64 && size in {1, 2, 4, 8} && WindowHasEdge(ap)
    ensures CopyMoves(ap, was, dst, src, size, count)
  {
    hide WindowHasEdge, RunReachable, RunFits, Ascending, Rounds, IsMemmove, Moved, Flat;
    var up := Ascending(dst, src, count * size);
    if dst != src && RunReachable(ap, src, size, count, count, up) && RunReachable(ap, dst, size, count, count, up) {
      EdgeCopyMoves(ap, was, dst, src, size, count);
      MovedIsMemmove(was, dst, src, count * size);
    }
  }

  /** Copying two bytes from the last address of the space, source wrapping, to address 0: byte 1
      receives the byte that round 0 wrote to address 0, not the one that stood there. */
  lemma WrappingCopy(ap: Apertures, was: seq<u8>)
    requires |was| == TWO64 && !WindowHasEdge(ap)
    ensures var dst, src := 0, MAX_UINT64;
            var up := Ascending(dst, src, 2 * 1);
            && RunReachable(ap, src, 1, 2, 2, up) && RunReachable(ap, dst, 1, 2, 2, up)
            && !Flat(dst, src, 2 * 1)
            && RunFits(TWO64, src, 1, 2, 2, up) && RunFits(TWO64, dst, 1, 2, 2, up)
            && var mem := Rounds(was, dst, src, 1, 2, 2, up);
            && mem[0] == was[MAX_UINT64] && mem[1] == was[MAX_UINT64]
            && (IsMemmove(mem, was, dst, src, 2 * 1) ==> mem[1] == was[0])
  {
    var dst: u64, src: u64 := 0, MAX_UINT64;
    assert Ascending(dst, src, 2 * 1);
    WrappingRounds(ap);
    hide RunReachable, RunFits, Patch, Reachable, RoundAddress, Wrap64, Rounds, Ascending;
    NoRounds(was, dst, src, 1, 2, true);
    FitsBefore(TWO64, src, 1, 2, 1, true);
    FitsBefore(TWO64, dst, 1, 2, 1, true);
    NextRound(was, dst, src, 1, 2, 0, true);
    NextRound(was, dst, src, 1, 2, 1, true);
    var m, mem := Rounds(was, dst, src, 1, 2, 1, true), Rounds(was, dst, src, 1, 2, 2, true);
    ByteCopied(was, MAX_UINT64, 0);
    ByteCopied(m, 0, 1);
    SecondByte(mem, was);
  }

  lemma WrappingRounds(ap: Apertures)
    requires !WindowHasEdge(ap)
    ensures var dst, src := 0, MAX_UINT64;
            && RunReachable(ap, src, 1, 2, 2, true) && RunReachable(ap, dst, 1, 2, 2, true)
            && RunFits(TWO64, src, 1, 2, 2, true) && RunFits(TWO64, dst, 1, 2, 2, true)
            && RoundAddress(src, 1, 2, 0, true) == MAX_UINT64 && RoundAddress(src, 1, 2, 1, true) == 0
            && RoundAddress(dst, 1, 2, 0, true) == 0 && RoundAddress(dst, 1, 2, 1, true) == 1
  {
    var dst: u64, src: u64 := 0, MAX_UINT64;
    assert RoundAddress(src, 1, 2, 0, true) == MAX_UINT64 && RoundAddress(src, 1, 2, 1, true) == 0;
    assert RoundAddress(dst, 1, 2, 0, true) == 0 && RoundAddress(dst, 1, 2, 1, true) == 1;
    hide RoundAddress;
  }

  lemma ByteCopied(m: seq<u8>, s: u64, d: u64)
    requires |m| == TWO64
    ensures var r := Patch(m, d, m[s..s + 1]);
            r[d] == m[s] && forall a: u64 :: a != d ==> r[a] == m[a]
  {
  }

  lemma SecondByte(mem: seq<u8>, was: seq<u8>)
    requires |mem| == |was| == TWO64
    ensures IsMemmove(mem, was, 0, MAX_UINT64, 2 * 1) ==> mem[1] == was[0]
  {
    assert ByteOf(mem, 0, 1) == mem[1] && ByteOf(was, MAX_UINT64, 1) == was[0];
  }

  ghost predicate AlwaysMoves(ap: Apertures) {
    forall was: seq<u8>, dst: u64, src: u64, size: nat, count: u64 ::
      |was| == TWO64 && size in {1, 2, 4, 8} ==> CopyMoves(ap, was, dst, src, size, count)
  }

  /** Every successful copy is a memmove if and only if the window is not the whole address space. */
  lemma CopyIsMemmoveIff(ap: Apertures)
    ensures AlwaysMoves(ap) <==> ap.memLimit < MAX_UINT64 || ap.memBase > 0
  {
    hide CopyMoves;
    if WindowHasEdge(ap) {
      forall was: seq<u8>, dst: u64, src: u64, size: nat, count: u64 | |was| == TWO64 && size in {1, 2, 4, 8}
        ensures CopyMoves(ap, was, dst, src, size, count)
      {
        EdgeMoves(ap, was, dst, src, size, count);
      }
    } else {
      LastByteDiffers(ap);
    }
  }

  /** A memory whose last byte differs from the others. */
  function OnlyLast(): (s: seq<u8>)
    ensures |s| == TWO64
  {
    seq(TWO64, i => if i == MAX_UINT64 then 1 else 0)
  }

  lemma LastByteDiffers(ap: Apertures)
    requires !WindowHasEdge(ap)
    ensures !CopyMoves(ap, OnlyLast(), 0, MAX_UINT64, 1, 2)
  {
    hide Rounds, RunReachable, RunFits, IsMemmove, Ascending;
    WrappingCopy(ap, OnlyLast());
  }

  ghost predicate AlwaysFlat(ap: Apertures) {
    forall dst: u64, src: u64, size: nat, count: u64, up: bool ::
      size in {1, 2, 4, 8} && RunReachable(ap, src, size, count, count, up) && RunReachable(ap, dst, size, count, count, up)
      ==> Flat(dst, src, count * size)
  }

  /** Runs that pass the checks never wrap if and only if the window is not the whole address space. */
  lemma ReachableIsFlatIff(ap: Apertures)
    ensures AlwaysFlat(ap) <==> ap.memLimit < MAX_UINT64 || ap.memBase > 0
  {
    hide RunReachable, Flat;
    if WindowHasEdge(ap) {
      forall dst: u64, src: u64, size: nat, count: u64, up: bool
        | size in {1, 2, 4, 8} && RunReachable(ap, src, size, count, count, up) && RunReachable(ap, dst, size, count, count, up)
        ensures Flat(dst, src, count * size)
      {
        SuccessfulCopyIsFlat(ap, dst, src, size, count, up);
      }
    } else {
      WrappingCopy(ap, OnlyLast());
    }
  }
}
