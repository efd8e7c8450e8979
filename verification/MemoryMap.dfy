/** The system memory map during PEI: resource descriptor HOBs, the declaration of the main memory
    and the carving out of the firmware's bytes by MemoryPeim. */
module MemoryMap {
  import opened Words
  import opened Efi

  const SYSTEM_MEMORY: u32 := 0

  /** PRESENT is bit zero of the resource attributes. */
  datatype Hob = Hob(kind: u32, attributes: u32, start: u64, length: u64)
  {
    function Top(): u64 {
      Wrap64(start + length)
    }

    predicate Present() {
      attributes % 2 == 1
    }

    predicate NoWrap() {
      start + length < TWO64
    }

    /** Attributes with PRESENT cleared. */
    function Absent(): u32 {
      attributes - attributes % 2
    }
  }

  /** PcdSystemMemoryBase/Size and PcdFdBaseAddress/FdSize. */
  datatype Platform = Platform(memBase: u64, memSize: u64, fdBase: u64, fdSize: u32)
  {
    function MemTop(): u64 {
      Wrap64(memBase + memSize)
    }

    function FdTop(): u64 {
      Wrap64(fdBase + fdSize)
    }

    predicate NoWrap() {
      memBase + memSize < TWO64 && fdBase + fdSize < TWO64
    }

    predicate FirmwareInMemory() {
      fdBase >= memBase && FdTop() <= MemTop()
    }

    predicate IsFirmware(a: int) {
      fdBase <= a < fdBase + fdSize
    }
  }

  // ----- MemoryPeim

  const MAIN_ATTRIBUTES: u32 := 0x3C07

  predicate IsMain(p: Platform, h: Hob) {
    h.kind == SYSTEM_MEMORY && p.memBase >= h.start && h.Top() <= p.MemTop()
  }

  predicate HoldsFirmware(p: Platform, h: Hob) {
    h.kind == SYSTEM_MEMORY && p.fdBase >= h.start && p.FdTop() <= h.Top()
  }

  predicate Declared(p: Platform, hobs: seq<Hob>) {
    exists i :: 0 <= i < |hobs| && IsMain(p, hobs[i])
  }

  function Declare(p: Platform, hobs: seq<Hob>): seq<Hob> {
    if Declared(p, hobs) then hobs else hobs + [Hob(SYSTEM_MEMORY, MAIN_ATTRIBUTES, p.memBase, p.memSize)]
  }

  /** The first HOB from i on that contains the firmware; |hobs| if there is none. */
  function FirmwareHob(p: Platform, hobs: seq<Hob>, i: nat): (r: nat)
    requires i <= |hobs|
    ensures i <= r <= |hobs|
    ensures r < |hobs| ==> HoldsFirmware(p, hobs[r])
    ensures forall k :: i <= k < r ==> !HoldsFirmware(p, hobs[k])
    decreases |hobs| - i
  {
    if i == |hobs| || HoldsFirmware(p, hobs[i]) then i else FirmwareHob(p, hobs, i + 1)
  }

  /** The HOB as edited in place, and the HOBs appended. */
  datatype Carved = Carved(edited: Hob, added: seq<Hob>)
  {
    function Pieces(): (r: seq<Hob>)
      ensures |r| == 1 + |added|
    {
      [edited] + added
    }
  }

  function Carve(p: Platform, h: Hob): Carved {
    var firmware := Hob(SYSTEM_MEMORY, h.Absent(), p.fdBase, p.fdSize);
    if p.fdBase == h.start then
      if p.MemTop() == p.FdTop() then Carved(h.(attributes := h.Absent()), [])
      else Carved(h.(start := Wrap64(h.start + p.fdSize), length := Wrap64(h.length - p.fdSize)), [firmware])
    else
      Carved(h.(length := Wrap64(p.fdBase - h.start)),
             [firmware] + if p.FdTop() < h.Top()
                          then [Hob(SYSTEM_MEMORY, h.attributes, p.FdTop(), Wrap64(h.Top() - p.FdTop()))]
                          else [])
  }

  function CarveAt(p: Platform, hobs: seq<Hob>, i: nat): seq<Hob>
    requires i < |hobs|
  {
    hobs[i := Carve(p, hobs[i]).edited] + Carve(p, hobs[i]).added
  }

  /** None where ASSERT(Found) fires. */
  function PeimMap(p: Platform, hobs: seq<Hob>): Option<seq<Hob>> {
    var declared := Declare(p, hobs);
    if !p.FirmwareInMemory() then Some(declared)
    else
      var i := FirmwareHob(p, declared, 0);
      if i == |declared| then None else Some(CarveAt(p, declared, i))
  }

  // ----- what a map means

  predicate In(h: Hob, a: int) {
    h.kind == SYSTEM_MEMORY && h.start <= a < h.start + h.length
  }

  ghost predicate Covered(hobs: seq<Hob>, a: int) {
    exists i :: 0 <= i < |hobs| && In(hobs[i], a)
  }

  ghost predicate PresentAt(hobs: seq<Hob>, a: int) {
    exists i :: 0 <= i < |hobs| && In(hobs[i], a) && hobs[i].Present()
  }

  /** No byte of system memory in both. */
  ghost predicate Apart(h: Hob, g: Hob) {
    forall a {:trigger In(h, a)} :: In(h, a) ==> !In(g, a)
  }

  ghost predicate Disjoint(hobs: seq<Hob>) {
    forall i, j :: 0 <= i < j < |hobs| ==> Apart(hobs[i], hobs[j])
  }

  function Total(hobs: seq<Hob>): nat {
    if hobs == [] then 0
    else Total(hobs[..|hobs| - 1])
         + if hobs[|hobs| - 1].kind == SYSTEM_MEMORY then hobs[|hobs| - 1].length else 0
  }

  // ----- one HOB

  /** The one case in which more than the firmware loses PRESENT: the HOB starts with the firmware,
      the firmware ends at the memory top, and the HOB reaches above it. */
  predicate Overshoots(p: Platform, h: Hob) {
    p.fdBase == h.start && p.MemTop() == p.FdTop() && p.FdTop() < h.Top()
  }

  lemma PiecesCover(p: Platform, h: Hob, a: int)
    requires p.NoWrap() && h.NoWrap() && HoldsFirmware(p, h)
    ensures In(h, a) <==> Covered(Carve(p, h).Pieces(), a)
  {
    var c := Carve(p, h);
    var s := c.Pieces();
    assert s[0] == c.edited;
    assert |s| > 1 ==> s[1] == c.added[0];
    assert |s| > 2 ==> s[2] == c.added[1];
  }

  lemma PiecesPresent(p: Platform, h: Hob, a: int)
    requires p.NoWrap() && h.NoWrap() && HoldsFirmware(p, h)
    ensures PresentAt(Carve(p, h).Pieces(), a)
            <==> In(h, a) && h.Present() && !p.IsFirmware(a) && !(Overshoots(p, h))
  {
    var c := Carve(p, h);
    var s := c.Pieces();
    assert h.Absent() % 2 == 0;
    assert s[0] == c.edited;
    assert |s| > 1 ==> s[1] == c.added[0];
    assert |s| > 2 ==> s[2] == c.added[1];
  }

  lemma PiecesDisjoint(p: Platform, h: Hob)
    requires p.NoWrap() && h.NoWrap() && HoldsFirmware(p, h)
    ensures Disjoint(Carve(p, h).Pieces())
  {
    var c := Carve(p, h);
    var s := c.Pieces();
    assert s[0] == c.edited;
    assert |s| > 1 ==> s[1] == c.added[0];
    assert |s| > 2 ==> s[2] == c.added[1];
  }

  lemma PiecesTotal(p: Platform, h: Hob)
    requires p.NoWrap() && h.NoWrap() && HoldsFirmware(p, h)
    ensures Carve(p, h).edited.length + Total(Carve(p, h).added) == h.length
    ensures Carve(p, h).edited.kind == SYSTEM_MEMORY
  {
    var s := Carve(p, h).added;
    if |s| == 2 {
      assert s[..1] == [s[0]];
      assert [s[0]][..0] == [];
      assert Total(s) == Total(s[..1]) + s[1].length;
    } else if |s| == 1 {
      assert s[..0] == [];
    }
  }

  /** The tests of MemoryPeim ask what they should: whether the firmware's bytes are all in the main memory, and
      whether they are all in one system memory HOB (resource type 0). */
  lemma TestsMeanContainment(p: Platform, h: Hob)
    requires p.NoWrap() && h.NoWrap() && p.fdSize > 0
    ensures p.FirmwareInMemory() <==> forall a :: p.IsFirmware(a) ==> IsMainByte(p, a)
    ensures HoldsFirmware(p, h) <==> h.kind == 0 && forall a :: p.IsFirmware(a) ==> h.start <= a < h.start + h.length
  {
    var first, last := p.fdBase as int, p.fdBase + p.fdSize - 1;
    assert p.IsFirmware(first) && p.IsFirmware(last);
    assert IsMainByte(p, first) <==> p.memBase <= first < p.memBase + p.memSize;
    assert IsMainByte(p, last) <==> p.memBase <= last < p.memBase + p.memSize;
  }

  /** A piece keeps all attributes of the carved HOB, except that the one holding the firmware loses bit 0. */
  lemma PieceAttributes(p: Platform, h: Hob, k: nat)
    requires p.NoWrap() && h.NoWrap() && HoldsFirmware(p, h) && p.fdSize > 0 && k < |Carve(p, h).Pieces()|
    ensures var piece := Carve(p, h).Pieces()[k];
            && piece.kind == 0
            && piece.attributes as int == if piece.start <= p.fdBase < piece.start + piece.length
                                          then h.attributes / 2 * 2 else h.attributes as int
  {
    assert k > 0 ==> Carve(p, h).Pieces()[k] == Carve(p, h).added[k - 1];
  }

  // ----- the whole list

  lemma {:induction false} TotalAppend(a: seq<Hob>, b: seq<Hob>)
    ensures Total(a + b) == Total(a) + Total(b)
  {
    if b == [] {
      assert a + b == a;
    } else {
      assert (a + b)[..|a + b| - 1] == a + b[..|b| - 1];
      TotalAppend(a, b[..|b| - 1]);
    }
  }

  lemma {:induction false} TotalUpdate(hobs: seq<Hob>, i: nat, h: Hob)
    requires i < |hobs| && h.kind == SYSTEM_MEMORY && hobs[i].kind == SYSTEM_MEMORY
    ensures Total(hobs[i := h]) == Total(hobs) - hobs[i].length + h.length
  {
    var n := |hobs| - 1;
    if i == n {
      assert hobs[i := h][..n] == hobs[..n];
    } else {
      assert hobs[i := h][..n] == hobs[..n][i := h];
      TotalUpdate(hobs[..n], i, h);
    }
  }

  /** Carving keeps the total length of system memory. */
  lemma CarveKeepsTotal(p: Platform, hobs: seq<Hob>, i: nat)
    requires i < |hobs| && p.NoWrap() && hobs[i].NoWrap() && HoldsFirmware(p, hobs[i])
    ensures Total(CarveAt(p, hobs, i)) == Total(hobs)
  {
    hide Total, Carve;
    var c := Carve(p, hobs[i]);
    PiecesTotal(p, hobs[i]);
    TotalAppend(hobs[i := c.edited], c.added);
    TotalUpdate(hobs, i, c.edited);
  }

  /** Every element of the carved list is an untouched HOB or a piece of the carved one. */
  lemma CarvedElements(p: Platform, hobs: seq<Hob>, i: nat)
    requires i < |hobs|
    ensures var t, s := CarveAt(p, hobs, i), Carve(p, hobs[i]).Pieces();
            && |t| == |hobs| + |s| - 1
            && t[i] == s[0]
            && (forall k :: 0 <= k < |hobs| && k != i ==> t[k] == hobs[k])
            && (forall k :: 1 <= k < |s| ==> t[|hobs| + k - 1] == s[k])
            && (forall k :: |hobs| <= k < |t| ==> t[k] == s[k - |hobs| + 1])
  {
  }

  /** Carving keeps the bytes covered by system memory. */
  lemma CarveKeepsCoverage(p: Platform, hobs: seq<Hob>, i: nat, a: int)
    requires i < |hobs| && p.NoWrap() && hobs[i].NoWrap() && HoldsFirmware(p, hobs[i])
    ensures Covered(CarveAt(p, hobs, i), a) <==> Covered(hobs, a)
  {
    hide CarveAt, Carve, In, Carved.Pieces;
    CarvedElements(p, hobs, i);
    PiecesCover(p, hobs[i], a);
    var t, s := CarveAt(p, hobs, i), Carve(p, hobs[i]).Pieces();
    if k :| 0 <= k < |hobs| && In(hobs[k], a) {
      if k == i {
        var m :| 0 <= m < |s| && In(s[m], a);
        assert In(t[if m == 0 then i else |hobs| + m - 1], a);
      } else {
        assert In(t[k], a);
      }
    }
    if k :| 0 <= k < |t| && In(t[k], a) {
      if k < |hobs| && k != i {
        assert In(hobs[k], a);
      } else {
        assert In(s[if k == i then 0 else k - |hobs| + 1], a);
        assert In(hobs[i], a);
      }
    }
  }

  /** The HOB of the old list that an element of the carved list comes from. */
  lemma ComesFrom(p: Platform, hobs: seq<Hob>, i: nat, k: nat, a: int)
    requires i < |hobs| && p.NoWrap() && hobs[i].NoWrap() && HoldsFirmware(p, hobs[i])
    requires k < |CarveAt(p, hobs, i)| && In(CarveAt(p, hobs, i)[k], a)
    ensures In(hobs[if k < |hobs| then k else i], a)
  {
    hide CarveAt, Carve, In, Carved.Pieces;
    CarvedElements(p, hobs, i);
    PiecesCover(p, hobs[i], a);
    var s := Carve(p, hobs[i]).Pieces();
    if k == i || k >= |hobs| {
      assert In(s[if k == i then 0 else k - |hobs| + 1], a);
    }
  }

  /** Carving keeps system memory HOBs disjoint. */
  lemma CarveKeepsDisjoint(p: Platform, hobs: seq<Hob>, i: nat)
    requires i < |hobs| && p.NoWrap() && hobs[i].NoWrap() && HoldsFirmware(p, hobs[i])
    requires Disjoint(hobs)
    ensures Disjoint(CarveAt(p, hobs, i))
  {
    hide CarveAt, Carve, In, Carved.Pieces;
    CarvedElements(p, hobs, i);
    PiecesDisjoint(p, hobs[i]);
    var t, s := CarveAt(p, hobs, i), Carve(p, hobs[i]).Pieces();
    forall j, k | 0 <= j < k < |t| ensures Apart(t[j], t[k]) {
      var from, into := if j < |hobs| then j else i, if k < |hobs| then k else i;
      if from == into {
        assert t[j] == s[if j == i then 0 else j - |hobs| + 1] && t[k] == s[k - |hobs| + 1];
      } else {
        assert if from < into then Apart(hobs[from], hobs[into]) else Apart(hobs[into], hobs[from]);
        forall a | In(t[j], a) ensures !In(t[k], a) {
          ComesFrom(p, hobs, i, j, a);
          if In(t[k], a) {
            ComesFrom(p, hobs, i, k, a);
          }
        }
      }
    }
  }

  /** PRESENT after carving: away from the carved HOB nothing changes, inside it the firmware's
      bytes lose it - or, in the overshooting case, all bytes do. */
  lemma CarvePresence(p: Platform, hobs: seq<Hob>, i: nat, a: int)
    requires i < |hobs| && p.NoWrap() && hobs[i].NoWrap() && HoldsFirmware(p, hobs[i])
    requires Disjoint(hobs)
    ensures PresentAt(CarveAt(p, hobs, i), a)
            <==> PresentAt(hobs, a) && !(In(hobs[i], a) && (p.IsFirmware(a) || Overshoots(p, hobs[i])))
  {
    hide CarveAt, Carve, In, Carved.Pieces, Overshoots, Hob.Present;
    CarvedElements(p, hobs, i);
    PiecesPresent(p, hobs[i], a);
    var t, s := CarveAt(p, hobs, i), Carve(p, hobs[i]).Pieces();
    if k :| 0 <= k < |hobs| && In(hobs[k], a) && hobs[k].Present() {
      if k == i {
        if PresentAt(s, a) {
          var m :| 0 <= m < |s| && In(s[m], a) && s[m].Present();
          assert In(t[if m == 0 then i else |hobs| + m - 1], a);
        }
      } else {
        assert In(t[k], a) && t[k].Present();
      }
    }
    if k :| 0 <= k < |t| && In(t[k], a) && t[k].Present() {
      if k < |hobs| && k != i {
        assert In(hobs[k], a) && hobs[k].Present();
        assert if k < i then Apart(hobs[k], hobs[i]) else Apart(hobs[i], hobs[k]);
      } else {
        assert In(s[if k == i then 0 else k - |hobs| + 1], a);
        assert In(hobs[i], a) && hobs[i].Present();
      }
    }
  }

  /** PRESENT is cleared on exactly the firmware's bytes if and only if the carved HOB is not one that
      is present and overshoots. In particular it is when no HOB reaches above the memory top. */
  lemma ClearsExactlyFirmwareIff(p: Platform, hobs: seq<Hob>, i: nat)
    requires i < |hobs| && p.NoWrap() && hobs[i].NoWrap() && HoldsFirmware(p, hobs[i])
    requires Disjoint(hobs)
    ensures (forall a :: PresentAt(CarveAt(p, hobs, i), a) <==> PresentAt(hobs, a) && !p.IsFirmware(a))
            <==> !(Overshoots(p, hobs[i]) && hobs[i].Present())
  {
    hide CarveAt, PresentAt, Disjoint, Hob.Present;
    forall a ensures PresentAt(CarveAt(p, hobs, i), a)
                     <==> PresentAt(hobs, a) && !(In(hobs[i], a) && (p.IsFirmware(a) || Overshoots(p, hobs[i])))
             ensures p.IsFirmware(a) ==> In(hobs[i], a)
             ensures In(hobs[i], a) ==> (PresentAt(hobs, a) <==> hobs[i].Present())
    {
      CarvePresence(p, hobs, i, a);
      if In(hobs[i], a) {
        PresentHere(hobs, i, a);
      }
    }
    if Overshoots(p, hobs[i]) && hobs[i].Present() {
      var a := p.FdTop();
      assert In(hobs[i], a) && !p.IsFirmware(a);
      assert PresentAt(hobs, a) && !PresentAt(CarveAt(p, hobs, i), a);
    }
  }

  /** A byte of one HOB of a disjoint list is present if that HOB is. */
  lemma PresentHere(hobs: seq<Hob>, i: nat, a: int)
    requires i < |hobs| && In(hobs[i], a) && Disjoint(hobs)
    ensures PresentAt(hobs, a) <==> hobs[i].Present()
  {
    hide In, Hob.Present;
    if k :| 0 <= k < |hobs| && In(hobs[k], a) && hobs[k].Present() && k != i {
      assert if k < i then Apart(hobs[k], hobs[i]) else Apart(hobs[i], hobs[k]);
    }
  }

  // ----- declaring the main memory

  /** Adding the main memory HOB keeps the map disjoint exactly when no byte of it was covered. */
  lemma DeclareKeepsDisjointIff(p: Platform, hobs: seq<Hob>)
    requires Disjoint(hobs)
    ensures Disjoint(Declare(p, hobs))
            <==> Declared(p, hobs) || forall a :: p.memBase <= a < p.memBase + p.memSize ==> !Covered(hobs, a)
  {
    hide Declared;
    var main := Hob(SYSTEM_MEMORY, MAIN_ATTRIBUTES, p.memBase, p.memSize);
    var t := hobs + [main];
    if forall a :: p.memBase <= a < p.memBase + p.memSize ==> !Covered(hobs, a) {
      forall j, k | 0 <= j < k < |t| ensures Apart(t[j], t[k]) {
        if k == |hobs| {
          forall a | In(t[j], a) ensures !In(t[k], a) {
            assert Covered(hobs, a);
          }
        } else {
          assert Apart(hobs[j], hobs[k]);
        }
      }
    } else {
      var a :| p.memBase <= a < p.memBase + p.memSize && Covered(hobs, a);
      var j :| 0 <= j < |hobs| && In(hobs[j], a);
      assert In(t[j], a) && In(t[|hobs|], a);
      assert Disjoint(t) ==> Apart(t[j], t[|hobs|]);
    }
  }

  predicate IsMainByte(p: Platform, a: int) {
    p.memBase <= a < p.memBase + p.memSize
  }

  /** The HOB contains all of main memory. */
  ghost predicate HoldsMain(p: Platform, h: Hob) {
    forall a :: IsMainByte(p, a) ==> In(h, a)
  }

  /** The search compares the HOB's top with the memory top the wrong way round: it accepts HOBs that
      end too low, and none that reaches above.  So an accepted HOB contains the main memory precisely
      when it ends exactly at the memory top. */
  lemma AcceptedHobHoldsMainIff(p: Platform, h: Hob)
    requires p.NoWrap() && h.NoWrap() && p.memSize > 0 && IsMain(p, h)
    ensures HoldsMain(p, h) <==> h.Top() == p.MemTop()
  {
    assert IsMainByte(p, p.memBase + p.memSize - 1);
    if h.Top() == p.MemTop() {
      forall a | IsMainByte(p, a) ensures In(h, a) {
      }
    }
  }

  /** The HOB the search stops at, or the one it then builds. */
  function MainHob(p: Platform, hobs: seq<Hob>, i: nat): (r: nat)
    requires i <= |hobs|
    ensures i <= r <= |hobs|
    ensures r < |hobs| ==> IsMain(p, hobs[r])
    ensures forall k :: i <= k < r ==> !IsMain(p, hobs[k])
    decreases |hobs| - i
  {
    if i == |hobs| || IsMain(p, hobs[i]) then i else MainHob(p, hobs, i + 1)
  }

  /** After the search, the HOB that stands for the main memory contains it if and only if nothing was
      accepted, so that it was built, or the first HOB accepted ends exactly at the memory top. */
  lemma MainMemoryHeldIff(p: Platform, hobs: seq<Hob>)
    requires p.NoWrap() && p.memSize > 0 && forall i :: 0 <= i < |hobs| ==> hobs[i].NoWrap()
    ensures var i := MainHob(p, hobs, 0);
            && i < |Declare(p, hobs)|
            && (HoldsMain(p, Declare(p, hobs)[i]) <==> i == |hobs| || hobs[i].Top() == p.MemTop())
  {
    hide MainHob, HoldsMain, Hob.Top, IsMain;
    var i := MainHob(p, hobs, 0);
    FirstMain(p, hobs);
    if i == |hobs| {
      BuiltHobHoldsMain(p);
    } else {
      AcceptedHobHoldsMainIff(p, hobs[i]);
    }
  }

  lemma FirstMain(p: Platform, hobs: seq<Hob>)
    ensures var i := MainHob(p, hobs, 0);
            && i <= |hobs| && (i < |hobs| <==> Declared(p, hobs)) && (i < |hobs| ==> IsMain(p, hobs[i]))
  {
    hide IsMain;
  }

  lemma BuiltHobHoldsMain(p: Platform)
    ensures HoldsMain(p, Hob(SYSTEM_MEMORY, MAIN_ATTRIBUTES, p.memBase, p.memSize))
  {
  }

  /** When all system memory known so far lies below the main memory, the main memory is covered
      after the search if and only if no such memory is known; otherwise not one byte of it is. */
  lemma MemoryBelowHidesMainIff(p: Platform, hobs: seq<Hob>)
    requires p.NoWrap() && p.memSize > 0
    requires forall i :: 0 <= i < |hobs| && hobs[i].kind == SYSTEM_MEMORY ==> hobs[i].NoWrap() && hobs[i].Top() <= p.memBase
    ensures (forall a :: IsMainByte(p, a) ==> Covered(Declare(p, hobs), a))
       <==> forall i :: 0 <= i < |hobs| ==> hobs[i].kind != SYSTEM_MEMORY
    ensures (exists i :: 0 <= i < |hobs| && hobs[i].kind == SYSTEM_MEMORY) ==>
              forall a :: IsMainByte(p, a) ==> !Covered(Declare(p, hobs), a)
  {
    var d := Declare(p, hobs);
    assert IsMainByte(p, p.memBase);
    if i :| 0 <= i < |hobs| && hobs[i].kind == SYSTEM_MEMORY {
      assert IsMain(p, hobs[i]) && d == hobs;
      forall a | IsMainByte(p, a) ensures !Covered(d, a) {
      }
    } else {
      assert d[|hobs|] == Hob(SYSTEM_MEMORY, MAIN_ATTRIBUTES, p.memBase, p.memSize);
      forall a | IsMainByte(p, a) ensures Covered(d, a) {
        assert In(d[|hobs|], a);
      }
    }
  }

  // ----- MemoryPeim as a whole

  /** Over the list with the main memory declared, by the platform or by MemoryPeim itself, and
      disjoint: the assertion fires exactly when the firmware lies in the main memory but in no one HOB; else
      MemoryPeim keeps coverage, total length and disjointness, and clears PRESENT on exactly the
      firmware's bytes unless the firmware's HOB is present and overshoots. */
  lemma PeimConservesMemory(p: Platform, hobs: seq<Hob>)
    requires p.NoWrap() && Disjoint(Declare(p, hobs)) && forall i :: 0 <= i < |hobs| ==> hobs[i].NoWrap()
    ensures var d, t := Declare(p, hobs), PeimMap(p, hobs);
            var i := FirmwareHob(p, d, 0);
            && (t.None? <==> p.FirmwareInMemory() && forall k :: 0 <= k < |d| ==> !HoldsFirmware(p, d[k]))
            && (t.Some? ==>
                  && Total(t.value) == Total(d) && Disjoint(t.value)
                  && (forall a :: Covered(t.value, a) <==> Covered(d, a))
                  && ((forall a :: PresentAt(t.value, a) <==> PresentAt(d, a) && !(p.FirmwareInMemory() && p.IsFirmware(a)))
                      <==> !(p.FirmwareInMemory() && Overshoots(p, d[i]) && d[i].Present())))
  {
    hide CarveAt, Covered, PresentAt, Disjoint, Total, Declare, Overshoots, Hob.Present, HoldsFirmware;
    var d := Declare(p, hobs);
    var i := FirmwareHob(p, d, 0);
    if p.FirmwareInMemory() && i < |d| {
      DeclaredNoWrap(p, hobs);
      CarveKeepsTotal(p, d, i);
      CarveKeepsDisjoint(p, d, i);
      forall a ensures Covered(CarveAt(p, d, i), a) <==> Covered(d, a) {
        CarveKeepsCoverage(p, d, i, a);
      }
      ClearsExactlyFirmwareIff(p, d, i);
    }
  }

  /** MemoryPeim changes no attribute but bit 0 and moves nothing that is not system memory; what it appends
      are parts of the first HOB that holds the firmware. */
  lemma PeimKeepsAttributes(p: Platform, hobs: seq<Hob>)
    requires p.NoWrap() && p.fdSize > 0 && forall i :: 0 <= i < |hobs| ==> hobs[i].NoWrap()
    requires PeimMap(p, hobs).Some?
    ensures var d, t := Declare(p, hobs), PeimMap(p, hobs).value;
            && |d| <= |t|
            && (forall k :: 0 <= k < |d| ==> t[k].kind == d[k].kind && t[k].attributes / 2 == d[k].attributes / 2)
            && (forall k :: 0 <= k < |d| && (d[k].kind != 0 || !HoldsFirmware(p, d[k])) ==> t[k] == d[k])
            && (|d| < |t| ==>
                  var i := FirmwareHob(p, d, 0);
                  i < |d| && forall k :: |d| <= k < |t| ==> t[k].kind == 0 && t[k].attributes / 2 == d[i].attributes / 2)
  {
    hide Declare, HoldsFirmware, Carve, CarveAt, Carved.Pieces;
    var d := Declare(p, hobs);
    var i := FirmwareHob(p, d, 0);
    if p.FirmwareInMemory() {
      DeclaredNoWrap(p, hobs);
      CarvedElements(p, d, i);
      HeldIsMemory(p, d[i]);
      var s := Carve(p, d[i]).Pieces();
      forall k | 0 <= k < |s| ensures s[k].kind == 0 && s[k].attributes / 2 == d[i].attributes / 2 {
        PieceAttributes(p, d[i], k);
      }
    }
  }

  lemma HeldIsMemory(p: Platform, h: Hob)
    requires HoldsFirmware(p, h)
    ensures h.kind == 0
  {
  }

  lemma DeclaredNoWrap(p: Platform, hobs: seq<Hob>)
    requires p.NoWrap() && forall i :: 0 <= i < |hobs| ==> hobs[i].NoWrap()
    ensures forall i :: 0 <= i < |Declare(p, hobs)| ==> Declare(p, hobs)[i].NoWrap()
  {
  }
}
