/** Which calls of CopyMem are not a memmove: where nothing keeps a run from wrapping, those whose rounds go
    the wrong way round the ring of addresses and read bytes they have already overwritten. */
module RootBridgeOverlap {
  import opened Words
  import opened Efi
  import opened RootBridgeIo
  import opened RootBridgeCopy
  import opened Slices

  /** On the ring of addresses, the destination run meets no source byte that is still to be read. */
  predicate Apart(dst: u64, src: u64, n: nat) {
    n <= if Ascending(dst, src, n) then Wrap64(dst - src) else Wrap64(src - dst)
  }

  /** The position in the run of the element handled in round i. */
  function Offset(size: nat, count: u64, i: nat, up: bool): int {
    if up then i * size else (count - 1) * size - i * size
  }

  lemma RoundAt(a: u64, size: nat, count: u64, i: nat, up: bool)
    requires size in {1, 2, 4, 8} && i < count
    ensures RoundAddress(a, size, count, i, up) == Wrap64(a + Offset(size, count, i, up))
    ensures Offset(size, count, i, up) % size == 0 && 0 <= Offset(size, count, i, up) <= count * size - size
  {
    hide Offset, Wrap64, RoundAddress;
    RoundIs(a, size, count, i, up);
    OffsetIsMultiple(size, count, i, up);
    var k := if up then i else count - 1 - i;
    ElementEnds(size, count, k);
    MultipleStaysAligned(0, k, size);
  }

  lemma RoundIs(a: u64, size: nat, count: u64, i: nat, up: bool)
    ensures RoundAddress(a, size, count, i, up) == Wrap64(a + Offset(size, count, i, up))
  {
    hide Wrap64;
  }

  lemma OffsetIsMultiple(size: nat, count: u64, i: nat, up: bool)
    requires i < count
    ensures Offset(size, count, i, up) == (if up then i else count - 1 - i) * size
  {
    assert (count - 1) * size == (count - 1 - i) * size + i * size;
  }

  /** An aligned element does not straddle the end of the address space. */
  lemma ElementPlace(a: u64, o: nat, size: nat, t: nat)
    requires size in {1, 2, 4, 8} && a % size == 0 && o % size == 0 && t < size
    ensures Wrap64(a + o) % size == 0 && Wrap64(a + o) + size <= TWO64
    ensures Wrap64(a + o + t) == Wrap64(a + o) + t
  {
    hide Wrap64;
    AlignedSum(a, o, size);
    AlignedWord(a + o, size);
    AlignedRoom(Wrap64(a + o), size);
    WrapSum(a + o, t);
    NotWrapped(Wrap64(a + o) + t);
  }

  // ----- calls that keep apart

  /** What an address holds once bytes lo to hi of the run are copied and nothing else has changed. */
  predicate CopiedAt(mem: seq<u8>, was: seq<u8>, dst: u64, src: u64, lo: nat, hi: nat, x: u64)
    requires |mem| == |was| == TWO64
  {
    var w := Wrap64(x - dst);
    mem[x] == if lo <= w < hi then ByteOf(was, src, w) else was[x]
  }

  ghost predicate Copied(mem: seq<u8>, was: seq<u8>, dst: u64, src: u64, lo: nat, hi: nat)
    requires |mem| == |was| == TWO64
  {
    forall x: u64 :: CopiedAt(mem, was, dst, src, lo, hi, x)
  }

  /** The source byte j of the run lies outside the part that is already written. */
  lemma NotYetWritten(dst: u64, src: u64, n: nat, lo: nat, hi: nat, j: nat, up: bool)
    requires if up then lo == 0 && hi <= j && n <= Wrap64(dst - src) else j < lo && hi == n && n <= Wrap64(src - dst)
    requires dst != src && j < n
    ensures !(lo <= Wrap64(Wrap64(src + j) - dst) < hi)
  {
  }

  /** An address is Wrap64(dst + w) for its distance w from dst. */
  lemma Distance(a: u64, dst: u64)
    ensures Wrap64(dst + Wrap64(a - dst)) == a
  {
  }

  lemma DistanceOf(dst: u64, j: nat)
    requires j < TWO64
    ensures Wrap64(Wrap64(dst + j) - dst) == j
  {
  }

  /** The addresses of one element are those at its distances from dst. */
  lemma InElement(dst: u64, o: nat, size: nat, x: u64)
    requires size in {1, 2, 4, 8} && dst % size == 0 && o % size == 0 && o + size <= TWO64
    ensures var d, w := Wrap64(dst + o), Wrap64(x - dst);
            && (d <= x < d + size <==> o <= w < o + size)
            && (d <= x < d + size ==> x - d == w - o)
  {
    hide Wrap64;
    var d, w := Wrap64(dst + o), Wrap64(x - dst);
    Distance(x, dst);
    if d <= x < d + size {
      ElementPlace(dst, o, size, x - d);
      DistanceOf(dst, o + (x - d));
    }
    if o <= w < o + size {
      ElementPlace(dst, o, size, w - o);
    }
  }

  lemma CopiedOutside(m: seq<u8>, was: seq<u8>, dst: u64, src: u64, lo: nat, hi: nat, x: u64)
    requires |m| == |was| == TWO64 && Copied(m, was, dst, src, lo, hi)
    ensures !(lo <= Wrap64(x - dst) < hi) ==> m[x] == was[x]
  {
    hide Wrap64;
    assert CopiedAt(m, was, dst, src, lo, hi, x);
  }

  /** The element about to be read is as it was. */
  lemma SourceIntact(m: seq<u8>, was: seq<u8>, dst: u64, src: u64, size: nat, n: nat, o: nat, up: bool, t: nat)
    requires |m| == |was| == TWO64 && size in {1, 2, 4, 8} && src % size == 0 && o % size == 0 && dst != src
    requires o + size <= n <= (if up then Wrap64(dst - src) else Wrap64(src - dst)) && t < size
    requires Copied(m, was, dst, src, if up then 0 else o + size, if up then o else n)
    ensures Wrap64(src + o) + size <= TWO64 && m[Wrap64(src + o) + t] == ByteOf(was, src, o + t)
  {
    hide Wrap64, CopiedAt;
    ElementPlace(src, o, size, t);
    CopiedOutside(m, was, dst, src, if up then 0 else o + size, if up then o else n, Wrap64(src + o + t));
    NotYetWritten(dst, src, n, if up then 0 else o + size, if up then o else n, o + t, up);
  }

  lemma PatchAt(m: seq<u8>, d: nat, s: nat, size: nat, x: nat)
    requires d + size <= |m| && s + size <= |m| && x < |m|
    ensures Patch(m, d, m[s..s + size])[x] == if d <= x < d + size then m[s + (x - d)] else m[x]
  {
  }

  /** What one round leaves at an address: inside the element the source byte as it was. */
  lemma StepAt(m: seq<u8>, was: seq<u8>, dst: u64, src: u64, size: nat, n: nat, o: nat, up: bool, x: u64)
    requires |m| == |was| == TWO64 && size in {1, 2, 4, 8} && dst != src
    requires dst % size == 0 && src % size == 0 && o % size == 0
    requires o + size <= n <= if up then Wrap64(dst - src) else Wrap64(src - dst)
    requires Copied(m, was, dst, src, if up then 0 else o + size, if up then o else n)
    ensures var d, s, w := Wrap64(dst + o), Wrap64(src + o), Wrap64(x - dst);
            && d + size <= TWO64 && s + size <= TWO64
            && Patch(m, d, m[s..s + size])[x] == if o <= w < o + size then ByteOf(was, src, w) else m[x]
  {
    hide Wrap64, Patch, Copied, ByteOf;
    ElementPlace(dst, o, size, 0);
    ElementPlace(src, o, size, 0);
    InElement(dst, o, size, x);
    var d, s, w := Wrap64(dst + o), Wrap64(src + o), Wrap64(x - dst);
    PatchAt(m, d, s, size, x);
    if o <= w < o + size {
      SourceIntact(m, was, dst, src, size, n, o, up, w - o);
    }
  }

  /** One round copies one element more. */
  lemma StepCopies(m: seq<u8>, was: seq<u8>, dst: u64, src: u64, size: nat, n: nat, o: nat, up: bool)
    requires |m| == |was| == TWO64 && size in {1, 2, 4, 8} && dst != src
    requires dst % size == 0 && src % size == 0 && o % size == 0
    requires o + size <= n <= if up then Wrap64(dst - src) else Wrap64(src - dst)
    requires Copied(m, was, dst, src, if up then 0 else o + size, if up then o else n)
    ensures var d, s := Wrap64(dst + o), Wrap64(src + o);
            && d + size <= TWO64 && s + size <= TWO64
            && Copied(Patch(m, d, m[s..s + size]), was, dst, src, if up then 0 else o, if up then o + size else n)
  {
    hide Wrap64, Patch, ByteOf;
    StepAt(m, was, dst, src, size, n, o, up, 0);
    var d, s := Wrap64(dst + o), Wrap64(src + o);
    var m' := Patch(m, d, m[s..s + size]);
    var lo, hi := if up then 0 else o, if up then o + size else n;
    forall x: u64 ensures CopiedAt(m', was, dst, src, lo, hi, x) {
      StepAt(m, was, dst, src, size, n, o, up, x);
      assert CopiedAt(m, was, dst, src, if up then 0 else o + size, if up then o else n, x);
    }
  }

  /** Once the first i rounds are done, the bytes from Low up to High are copied. */
  function Low(size: nat, count: u64, i: nat, up: bool): int {
    if up then 0 else count * size - i * size
  }

  function High(size: nat, count: u64, i: nat, up: bool): int {
    if up then i * size else count * size
  }

  lemma Bounds(size: nat, count: u64, i: nat, up: bool)
    requires i < count
    ensures var o := Offset(size, count, i, up);
            && Low(size, count, i, up) == (if up then 0 else o + size) && High(size, count, i, up) == (if up then o else count * size)
            && Low(size, count, i + 1, up) == (if up then 0 else o)
            && High(size, count, i + 1, up) == (if up then o + size else count * size)
  {
    assert (i + 1) * size == i * size + size && (count - 1) * size == count * size - size;
  }

  lemma BoundsMeet(size: nat, count: u64, up: bool)
    ensures 0 <= Low(size, count, 0, up) == High(size, count, 0, up)
    ensures Low(size, count, count, up) == 0 && High(size, count, count, up) == count * size
  {
  }

  /** Where the runs keep apart, the rounds copy the run as it was. */
  lemma {:induction false} ApartRounds(was: seq<u8>, dst: u64, src: u64, size: nat, count: u64, i: nat, up: bool)
    requires |was| == TWO64 && size in {1, 2, 4, 8} && dst != src && dst % size == 0 && src % size == 0 && i <= count
    requires count * size <= if up then Wrap64(dst - src) else Wrap64(src - dst)
    requires RunFits(|was|, src, size, count, i, up) && RunFits(|was|, dst, size, count, i, up)
    ensures 0 <= Low(size, count, i, up) && 0 <= High(size, count, i, up)
    ensures Copied(Rounds(was, dst, src, size, count, i, up), was, dst, src, Low(size, count, i, up), High(size, count, i, up))
    decreases i
  {
    hide Rounds, Patch, Wrap64, RunFits, RoundAddress, Copied, Low, High, Offset;
    if i == 0 {
      NoRounds(was, dst, src, size, count, up);
      BoundsMeet(size, count, up);
      NothingCopied(was, dst, src, Low(size, count, 0, up));
    } else {
      FitsBefore(|was|, src, size, count, i - 1, up);
      FitsBefore(|was|, dst, size, count, i - 1, up);
      ApartRounds(was, dst, src, size, count, i - 1, up);
      NextRound(was, dst, src, size, count, i - 1, up);
      RoundAt(src, size, count, i - 1, up);
      RoundAt(dst, size, count, i - 1, up);
      Bounds(size, count, i - 1, up);
      StepCopies(Rounds(was, dst, src, size, count, i - 1, up), was, dst, src, size, count * size,
                 Offset(size, count, i - 1, up), up);
    }
  }

  lemma NothingCopied(was: seq<u8>, dst: u64, src: u64, o: nat)
    requires |was| == TWO64
    ensures Copied(was, was, dst, src, o, o)
  {
  }

  lemma CopiedIsMemmove(mem: seq<u8>, was: seq<u8>, dst: u64, src: u64, n: nat)
    requires |mem| == |was| == TWO64 && n <= TWO64 && Copied(mem, was, dst, src, 0, n)
    ensures IsMemmove(mem, was, dst, src, n)
  {
    forall j: nat | j < n ensures ByteOf(mem, dst, j) == ByteOf(was, src, j) {
      DistanceOf(dst, j);
      assert CopiedAt(mem, was, dst, src, 0, n, Wrap64(dst + j));
    }
    forall a: u64 | Wrap64(a - dst) >= n ensures mem[a] == was[a] {
      assert CopiedAt(mem, was, dst, src, 0, n, a);
    }
  }

  lemma ApartMoves(ap: Apertures, was: seq<u8>, dst: u64, src: u64, size: nat, count: u64)
    requires |was| == TWO64 && size in {1, 2, 4, 8} && dst % size == 0 && src % size == 0
    requires Apart(dst, src, count * size)
    ensures CopyMoves(ap, was, dst, src, size, count)
  {
    hide Rounds, Wrap64, RunReachable, RunFits, Copied, Ascending, IsMemmove;
    var up := Ascending(dst, src, count * size);
    if dst != src && RunReachable(ap, src, size, count, count, up) && RunReachable(ap, dst, size, count, count, up) {
      ReachableFits(ap, src, size, count, count, up);
      ReachableFits(ap, dst, size, count, count, up);
      ApartRounds(was, dst, src, size, count, count, up);
      BoundsMeet(size, count, up);
      CopiedIsMemmove(Rounds(was, dst, src, size, count, count, up), was, dst, src, count * size);
    }
  }

  // ----- calls that overlap

  /** A memory with a single byte that is not zero. */
  function Single(x: u64): (s: seq<u8>)
    ensures |s| == TWO64 && forall a: u64 :: s[a] == if a == x then 1 else 0
  {
    seq(TWO64, i => if i == x then 1 else 0)
  }

  predicate AllZero(m: seq<u8>) {
    forall a :: 0 <= a < |m| ==> m[a] == 0
  }

  lemma ZeroPatch(m: seq<u8>, d: nat, s: nat, size: nat)
    requires d + size <= |m| && s + size <= |m| && AllZero(m)
    ensures AllZero(Patch(m, d, m[s..s + size]))
  {
  }

  /** An element that is read elsewhere overwrites the single byte. */
  lemma SingleOverwritten(d: u64, s: u64, size: nat)
    requires size in {1, 2, 4, 8} && d % size == 0 && s % size == 0 && d != s
    requires d + size <= TWO64 && s + size <= TWO64
    ensures AllZero(Patch(Single(d), d, Single(d)[s..s + size]))
  {
    ElementsApart(d, s, size);
    hide Single;
    SingleMeans(d);
  }

  lemma SingleMeans(x: u64)
    ensures |Single(x)| == TWO64 && forall a: u64 :: Single(x)[a] == if a == x then 1 else 0
  {
  }

  lemma ElementsApart(d: u64, s: u64, size: nat)
    requires size in {1, 2, 4, 8} && d % size == 0 && s % size == 0 && d != s
    ensures d + size <= s || s + size <= d
  {
    if size == 1 {} else if size == 2 {} else if size == 4 {} else {}
  }

  lemma DistinctPlaces(dst: u64, src: u64, o: nat)
    requires dst != src
    ensures Wrap64(dst + o) != Wrap64(src + o)
  {
  }

  /** The first round overwrites the single byte that is not zero, and the others copy zeros. */
  lemma {:induction false} ZeroRounds(dst: u64, src: u64, size: nat, count: u64, i: nat, up: bool)
    requires size in {1, 2, 4, 8} && dst != src && dst % size == 0 && src % size == 0 && 0 < i <= count
    requires RunFits(TWO64, src, size, count, i, up) && RunFits(TWO64, dst, size, count, i, up)
    ensures AllZero(Rounds(Single(RoundAddress(dst, size, count, 0, up)), dst, src, size, count, i, up))
    decreases i
  {
    hide Rounds, Patch, Wrap64, RunFits, RoundAddress, Single, AllZero, Offset;
    var x := RoundAddress(dst, size, count, 0, up);
    var was := Single(x);
    SingleMeans(x);
    FitsBefore(TWO64, src, size, count, i - 1, up);
    FitsBefore(TWO64, dst, size, count, i - 1, up);
    NextRound(was, dst, src, size, count, i - 1, up);
    RoundAt(src, size, count, i - 1, up);
    RoundAt(dst, size, count, i - 1, up);
    var o := Offset(size, count, i - 1, up);
    if i == 1 {
      NoRounds(was, dst, src, size, count, up);
      ElementPlace(src, o, size, 0);
      ElementPlace(dst, o, size, 0);
      DistinctPlaces(dst, src, o);
      SingleOverwritten(x, Wrap64(src + o), size);
    } else {
      ZeroRounds(dst, src, size, count, i - 1, up);
      ZeroPatch(Rounds(was, dst, src, size, count, i - 1, up), RoundAddress(dst, size, count, i - 1, up),
                RoundAddress(src, size, count, i - 1, up), size);
    }
  }

  /** The run reads the single byte at some position. */
  lemma SingleIsSource(dst: u64, src: u64, size: nat, count: u64, up: bool) returns (j: nat)
    requires size in {1, 2, 4, 8} && dst != src && dst % size == 0 && src % size == 0 && count > 0
    requires count * size > if up then Wrap64(dst - src) else Wrap64(src - dst)
    ensures j < count * size && Wrap64(src + j) == RoundAddress(dst, size, count, 0, up)
  {
    hide Wrap64, RoundAddress;
    FirstRoundAt(dst, size, count, up);
    if up {
      j := Wrap64(dst - src);
      Distance(dst, src);
    } else {
      var gap, n := Wrap64(src - dst), count * size;
      MultipleStaysAligned(0, count, size);
      GapAligned(src, dst, size);
      RoomForOne(n, gap, size);
      j := n - size - gap;
      WrapBack(src, dst, n - size);
    }
  }

  lemma FirstRoundAt(a: u64, size: nat, count: u64, up: bool)
    ensures RoundAddress(a, size, count, 0, up) == if up then a else Wrap64(a + (count * size - size))
  {
    assert (count - 1) * size == count * size - size;
  }

  lemma GapAligned(src: u64, dst: u64, size: nat)
    requires size in {1, 2, 4, 8} && dst % size == 0 && src % size == 0
    ensures Wrap64(src - dst) % size == 0
  {
    hide Wrap64;
    AlignedStep(src, size, -(dst / size));
    assert -(dst / size) * size == -(dst as int);
    AlignedWord(src - dst, size);
  }

  lemma RoomForOne(n: nat, gap: nat, size: nat)
    requires size in {1, 2, 4, 8} && n % size == 0 && gap % size == 0 && gap < n
    ensures gap + size <= n
  {
  }

  lemma WrapBack(src: u64, dst: u64, last: int)
    ensures Wrap64(src + (last - Wrap64(src - dst))) == Wrap64(dst + last)
  {
  }

  /** Every element of an aligned run may be accessed in the whole address space. */
  lemma AlignedRunReaches(ap: Apertures, a: u64, size: nat, count: u64, up: bool)
    requires size in {1, 2, 4, 8} && a % size == 0 && !WindowHasEdge(ap)
    ensures RunReachable(ap, a, size, count, count, up)
  {
    hide RoundAddress, Wrap64;
    forall k | 0 <= k < count ensures Reachable(ap, size, RoundAddress(a, size, count, k, up)) {
      RoundAt(a, size, count, k, up);
      ElementPlace(a, Offset(size, count, k, up), size, 0);
    }
  }

  lemma OverlapFails(ap: Apertures, dst: u64, src: u64, size: nat, count: u64)
    requires size in {1, 2, 4, 8} && dst != src && dst % size == 0 && src % size == 0 && !WindowHasEdge(ap)
    requires !Apart(dst, src, count * size)
    ensures var x := RoundAddress(dst, size, count, 0, Ascending(dst, src, count * size));
            !CopyMoves(ap, Single(x), dst, src, size, count)
  {
    hide Rounds, Wrap64, RunReachable, RunFits, Ascending, Single, RoundAddress, WindowHasEdge, AllZero;
    var up := Ascending(dst, src, count * size);
    var x := RoundAddress(dst, size, count, 0, up);
    AlignedRunReaches(ap, src, size, count, up);
    AlignedRunReaches(ap, dst, size, count, up);
    ReachableFits(ap, src, size, count, count, up);
    ReachableFits(ap, dst, size, count, count, up);
    SingleMeans(x);
    ZeroRounds(dst, src, size, count, count, up);
    var j := SingleIsSource(dst, src, size, count, up);
    MissesSource(Rounds(Single(x), dst, src, size, count, count, up), Single(x), dst, src, count * size, j);
  }

  lemma MissesSource(mem: seq<u8>, was: seq<u8>, dst: u64, src: u64, n: nat, j: nat)
    requires |mem| == |was| == TWO64 && AllZero(mem) && j < n && was[Wrap64(src + j)] == 1
    ensures !IsMemmove(mem, was, dst, src, n)
  {
    assert ByteOf(was, src, j) == 1 && ByteOf(mem, dst, j) == 0;
  }

  // ----- the exact condition

  lemma UnalignedMoves(ap: Apertures, was: seq<u8>, dst: u64, src: u64, size: nat, count: u64)
    requires |was| == TWO64 && size in {1, 2, 4, 8} && (dst % size != 0 || src % size != 0) && count > 0
    ensures CopyMoves(ap, was, dst, src, size, count)
  {
    hide Wrap64, RunFits, Rounds, IsMemmove, Ascending, RoundAddress;
    var up := Ascending(dst, src, count * size);
    var a := if dst % size != 0 then dst else src;
    RoundAt(a, size, count, 0, up);
    AlignedSum(a, Offset(size, count, 0, up), size);
    AlignedWord(a + Offset(size, count, 0, up), size);
    assert !Reachable(ap, size, RoundAddress(a, size, count, 0, up));
  }

  lemma EmptyMoves(ap: Apertures, was: seq<u8>, dst: u64, src: u64, size: nat)
    requires |was| == TWO64 && size in {1, 2, 4, 8}
    ensures CopyMoves(ap, was, dst, src, size, 0)
  {
  }

  /** The call is a memmove on every memory. */
  ghost predicate CallMoves(ap: Apertures, dst: u64, src: u64, size: nat, count: u64)
    requires size > 0
  {
    forall was: seq<u8> :: |was| == TWO64 ==> CopyMoves(ap, was, dst, src, size, count)
  }

  /** A call's copy is a memmove on every memory if and only if the window has an edge, or the call copies
      nothing (its addresses are equal, or one is misaligned and refused), or its runs keep apart. */
  lemma CallMovesIff(ap: Apertures, dst: u64, src: u64, size: nat, count: u64)
    requires size in {1, 2, 4, 8}
    ensures CallMoves(ap, dst, src, size, count)
       <==> WindowHasEdge(ap) || dst == src || dst % size != 0 || src % size != 0 || Apart(dst, src, count * size)
  {
    hide CopyMoves, WindowHasEdge, Wrap64, Ascending, Apart;
    if WindowHasEdge(ap) || dst == src || dst % size != 0 || src % size != 0 || Apart(dst, src, count * size) {
      forall was: seq<u8> | |was| == TWO64 ensures CopyMoves(ap, was, dst, src, size, count) {
        if WindowHasEdge(ap) {
          EdgeMoves(ap, was, dst, src, size, count);
        } else if count == 0 {
          EmptyMoves(ap, was, dst, src, size);
        } else if dst % size != 0 || src % size != 0 {
          UnalignedMoves(ap, was, dst, src, size, count);
        } else if dst == src {
          SameMoves(ap, was, dst, size, count);
        } else {
          ApartMoves(ap, was, dst, src, size, count);
        }
      }
    } else {
      OverlapFails(ap, dst, src, size, count);
      SingleMeans(RoundAddress(dst, size, count, 0, Ascending(dst, src, count * size)));
    }
  }

  lemma SameMoves(ap: Apertures, was: seq<u8>, dst: u64, size: nat, count: u64)
    requires |was| == TWO64 && size > 0
    ensures CopyMoves(ap, was, dst, dst, size, count)
  {
  }
}
