/** The 32-bit and byte writes by which rows of the shadow travel to the frame buffer, and when all
    32-bit writes of a call, or of a whole run, are aligned. */
module BusTraffic {
  import opened Raster
  import opened Pixels
  import opened BltModel

  // ----- CopyVideoBuffer: how a row travels over the bus

  /** One PciIo.Mem.Write: count elements of width bytes from an address on. */
  datatype BusWrite = BusWrite(width: nat, address: nat, count: nat)

  /** A write that is issued unless it would be empty. */
  function IfAny(width: nat, address: nat, count: nat): seq<BusWrite> {
    if count != 0 then [BusWrite(width, address, count)] else []
  }

  /** The writes CopyVideoBuffer issues for total bytes: bytes up to the first 4-byte boundary of
      the source buffer, then 32-bit words, then the remaining bytes. */
  function CopyPlan(bufferAddr: nat, fbAddr: nat, total: nat): seq<BusWrite> {
    if total < 4 then [BusWrite(1, fbAddr, total)]
    else
      var unaligned := Unaligned(bufferAddr);
      IfAny(1, fbAddr, unaligned) + WordsPlan(fbAddr + unaligned, total - unaligned)
  }

  /** Bytes up to the next multiple of 4. */
  function Unaligned(address: nat): (n: nat)
    ensures n < 4 && (address + n) % 4 == 0
  {
    (4 - address % 4) % 4
  }

  function WordsPlan(fbAddr: nat, n: nat): seq<BusWrite> {
    IfAny(4, fbAddr, n / 4) + IfAny(1, fbAddr + 4 * (n / 4), n % 4)
  }

  /** The writes follow each other without gap or overlap from lo to hi. */
  predicate Tiles(plan: seq<BusWrite>, lo: nat, hi: nat) {
    if plan == [] then lo == hi
    else plan[0].address == lo && Tiles(plan[1..], lo + plan[0].width * plan[0].count, hi)
  }

  /** Whatever the length and the alignment, the writes cover the row exactly once, in order. */
  lemma PlanTilesRow(bufferAddr: nat, fbAddr: nat, total: nat)
    ensures Tiles(CopyPlan(bufferAddr, fbAddr, total), fbAddr, fbAddr + total)
  {
    hide Tiles;
    if total < 4 {
      TilesNothing(fbAddr);
      TilesAppend([], fbAddr, fbAddr, BusWrite(1, fbAddr, total));
      assert [] + [BusWrite(1, fbAddr, total)] == [BusWrite(1, fbAddr, total)];
    } else {
      var unaligned := Unaligned(bufferAddr);
      var n := total - unaligned;
      assert unaligned + 4 * (n / 4) + n % 4 == total;
      PartsTile(fbAddr, unaligned, n / 4, n % 4);
    }
  }

  lemma PartsTile(a: nat, unaligned: nat, blocks: nat, remaining: nat)
    ensures Tiles(IfAny(1, a, unaligned) + (IfAny(4, a + unaligned, blocks) + IfAny(1, a + unaligned + 4 * blocks, remaining)),
                  a, a + unaligned + 4 * blocks + remaining)
  {
    hide Tiles, IfAny;
    TilesNothing(a);
    var head, body := IfAny(1, a, unaligned), IfAny(4, a + unaligned, blocks);
    TilesMore([], a, a, 1, unaligned);
    assert [] + head == head;
    TilesMore(head, a, a + unaligned, 4, blocks);
    var tail := IfAny(1, a + unaligned + 4 * blocks, remaining);
    TilesMore(head + body, a, a + unaligned + 4 * blocks, 1, remaining);
    assert head + (body + tail) == head + body + tail;
  }

  lemma TilesMore(plan: seq<BusWrite>, lo: nat, mid: nat, width: nat, count: nat)
    requires Tiles(plan, lo, mid)
    ensures Tiles(plan + IfAny(width, mid, count), lo, mid + width * count)
  {
    hide Tiles;
    if count != 0 {
      TilesAppend(plan, lo, mid, BusWrite(width, mid, count));
    } else {
      assert plan + [] == plan;
    }
  }

  lemma TilesNothing(a: nat)
    ensures Tiles([], a, a)
  {
  }

  lemma {:induction false} TilesAppend(plan: seq<BusWrite>, lo: nat, mid: nat, b: BusWrite)
    requires Tiles(plan, lo, mid) && b.address == mid
    ensures Tiles(plan + [b], lo, mid + b.width * b.count)
    decreases |plan|
  {
    if plan == [] {
      assert [b][1..] == [];
    } else {
      TilesAppend(plan[1..], lo + plan[0].width * plan[0].count, mid, b);
      assert (plan + [b])[1..] == plan[1..] + [b];
    }
  }

  /** The row holds a whole 32-bit word of the source buffer. */
  predicate HasWord(bufferAddr: nat, total: nat) {
    Unaligned(bufferAddr) + 4 <= total
  }

  predicate WordsAligned(plan: seq<BusWrite>) {
    forall b :: b in plan && b.width == 4 ==> b.address % 4 == 0
  }

  /** All 32-bit writes are aligned exactly when there is none or the row starts, on screen, at the
      same residue modulo 4 as in the source buffer. */
  lemma PlanAligned(bufferAddr: nat, fbAddr: nat, total: nat)
    ensures WordsAligned(CopyPlan(bufferAddr, fbAddr, total))
       <==> !HasWord(bufferAddr, total) || fbAddr % 4 == bufferAddr % 4
  {
    if total >= 4 {
      var unaligned := Unaligned(bufferAddr);
      WordsPlanAligned(fbAddr + unaligned, total - unaligned);
      AlignedAppend(IfAny(1, fbAddr, unaligned), WordsPlan(fbAddr + unaligned, total - unaligned));
      ShiftResidue(fbAddr, bufferAddr, unaligned);
    }
  }

  lemma WordsPlanAligned(fbAddr: nat, n: nat)
    ensures WordsAligned(WordsPlan(fbAddr, n)) <==> n < 4 || fbAddr % 4 == 0
  {
    AlignedAppend(IfAny(4, fbAddr, n / 4), IfAny(1, fbAddr + 4 * (n / 4), n % 4));
    if n >= 4 {
      assert IfAny(4, fbAddr, n / 4)[0] == BusWrite(4, fbAddr, n / 4);
    }
  }

  // ----- the rows a call pushes

  /** Where shadow and frame buffer begin. */
  datatype Bases = Bases(shadow: nat, video: nat)

  /** Row fromY of the shadow's rectangle, sent to screen row dstY. */
  function RowPlan(mode: Mode, b: Bases, fromY: nat, dstY: nat, dx: nat, width: nat): seq<BusWrite> {
    CopyPlan(b.shadow + (Off(fromY, mode.pitch) + Wide(mode, dx)),
             b.video + Off(dstY, mode.pitch) + Wide(mode, dx), Wide(mode, width))
  }

  /** The screen row written in round `index` of a call. */
  function PushedTo(call: BltCall, index: nat): nat
    requires index < call.height
  {
    if call.op == VideoToVideo && call.dy > call.sy then call.dy + call.height - index - 1 else call.dy + index
  }

  /** The shadow row it comes from: a fill sends its first row every time. */
  function PushedFrom(call: BltCall, index: nat): nat
    requires index < call.height
  {
    if call.op == VideoFill then call.dy else PushedTo(call, index)
  }

  function RoundPlan(mode: Mode, b: Bases, call: BltCall, index: nat): seq<BusWrite>
    requires index < call.height
  {
    RowPlan(mode, b, PushedFrom(call, index), PushedTo(call, index), call.dx, call.width)
  }

  /** The writes of the first k rounds. */
  function RoundsPlan(mode: Mode, b: Bases, call: BltCall, k: nat): seq<BusWrite>
    requires k <= call.height
  {
    if k == 0 then [] else RoundsPlan(mode, b, call, k - 1) + RoundPlan(mode, b, call, k - 1)
  }

  predicate Draws(mode: Mode, call: BltCall) {
    call.Accepted(mode) && call.op != VideoToBltBuffer
  }

  /** All writes of a call; one that is refused or only reads the shadow issues none. */
  function CallPlan(mode: Mode, b: Bases, call: BltCall): seq<BusWrite> {
    if Draws(mode, call) then RoundsPlan(mode, b, call, call.height) else []
  }

  // ----- alignment of one call

  lemma AlignedAppend(p: seq<BusWrite>, q: seq<BusWrite>)
    ensures WordsAligned(p + q) <==> WordsAligned(p) && WordsAligned(q)
  {
    assert forall w :: w in p ==> w in p + q;
    assert forall w :: w in q ==> w in p + q;
  }

  lemma {:induction false} RoundsAligned(mode: Mode, b: Bases, call: BltCall, k: nat)
    requires k <= call.height
    ensures WordsAligned(RoundsPlan(mode, b, call, k))
       <==> forall i :: 0 <= i < k ==> WordsAligned(RoundPlan(mode, b, call, i))
    decreases k
  {
    hide WordsAligned, RoundPlan;
    if k == 0 {
      NoWrites();
    } else {
      RoundsAligned(mode, b, call, k - 1);
      AlignedAppend(RoundsPlan(mode, b, call, k - 1), RoundPlan(mode, b, call, k - 1));
    }
  }

  lemma NoWrites()
    ensures WordsAligned([])
  {
  }

  /** Round `index` sends at least one 32-bit word. */
  predicate RoundHasWord(mode: Mode, b: Bases, call: BltCall, index: nat)
    requires index < call.height
  {
    HasWord(b.shadow + (Off(PushedFrom(call, index), mode.pitch) + Wide(mode, call.dx)), Wide(mode, call.width))
  }

  predicate SendsWords(mode: Mode, b: Bases, call: BltCall) {
    exists i :: 0 <= i < call.height && RoundHasWord(mode, b, call, i)
  }

  /** Source and destination of the round agree modulo 4. */
  predicate RoundCongruent(mode: Mode, b: Bases, call: BltCall, index: nat)
    requires index < call.height
  {
    (b.video + Off(PushedTo(call, index), mode.pitch)) % 4 == (b.shadow + Off(PushedFrom(call, index), mode.pitch)) % 4
  }

  lemma RoundAligned(mode: Mode, b: Bases, call: BltCall, index: nat)
    requires index < call.height
    ensures WordsAligned(RoundPlan(mode, b, call, index))
       <==> !RoundHasWord(mode, b, call, index) || RoundCongruent(mode, b, call, index)
  {
    hide Off, Wide, CopyPlan, HasWord, WordsAligned;
    var from := b.shadow + (Off(PushedFrom(call, index), mode.pitch) + Wide(mode, call.dx));
    var to := b.video + Off(PushedTo(call, index), mode.pitch) + Wide(mode, call.dx);
    PlanAligned(from, to, Wide(mode, call.width));
    ShiftResidue(b.video + Off(PushedTo(call, index), mode.pitch),
                 b.shadow + Off(PushedFrom(call, index), mode.pitch), Wide(mode, call.dx));
  }

  lemma ShiftResidue(x: nat, y: nat, c: nat)
    ensures (x + c) % 4 == (y + c) % 4 <==> x % 4 == y % 4
  {
    AddResidue(x, c);
    AddResidue(y, c);
  }

  lemma AddResidue(x: nat, c: nat)
    ensures (x + c) % 4 == if x % 4 + c % 4 < 4 then x % 4 + c % 4 else x % 4 + c % 4 - 4
  {
    var q, r := x / 4 + c / 4, x % 4 + c % 4;
    if r < 4 {
      assert x + c == 4 * q + r;
    } else {
      assert x + c == 4 * (q + 1) + (r - 4);
    }
  }

  lemma StepResidue(x: nat, c: nat)
    ensures (x + c) % 4 == x % 4 <==> c % 4 == 0
  {
    AddResidue(x, c);
  }

  /** A move or a buffer transfer sends each row to its own place. */
  lemma OwnPlace(mode: Mode, b: Bases, call: BltCall, index: nat)
    requires index < call.height && call.op != VideoFill
    ensures RoundCongruent(mode, b, call, index) <==> b.video % 4 == b.shadow % 4
  {
    hide Off;
    ShiftResidue(b.video, b.shadow, Off(PushedTo(call, index), mode.pitch));
  }

  /** A fill sends its first row everywhere: congruent for all rounds exactly if it is for the first
      two. */
  lemma {:induction false} FillPlace(mode: Mode, b: Bases, call: BltCall, index: nat)
    requires index < call.height && call.op == VideoFill
    ensures index == 0 ==> (RoundCongruent(mode, b, call, 0) <==> b.video % 4 == b.shadow % 4)
    ensures index == 1 && b.video % 4 == b.shadow % 4 ==> (RoundCongruent(mode, b, call, 1) <==> mode.pitch % 4 == 0)
    ensures b.video % 4 == b.shadow % 4 && mode.pitch % 4 == 0 ==> RoundCongruent(mode, b, call, index)
    decreases index
  {
    hide Off;
    var o := Off(call.dy, mode.pitch);
    ShiftResidue(b.video, b.shadow, o);
    if index > 0 {
      FillPlace(mode, b, call, index - 1);
      OffStep(call.dy + index - 1, mode.pitch);
      StepResidue(b.video + Off(call.dy + index - 1, mode.pitch), mode.pitch);
    }
  }

  /** What it takes for every 32-bit write of a call to be aligned. */
  predicate AlignsWords(mode: Mode, b: Bases, call: BltCall) {
    && b.video % 4 == b.shadow % 4
    && (call.op == VideoFill && call.height > 1 ==> mode.pitch % 4 == 0)
  }

  /** All 32-bit writes of a drawing call are aligned if and only if it sends none, or frame buffer and
      shadow agree modulo 4 and, for a fill of more than one row, the scan line is a multiple of 4. */
  lemma CallAlignedIff(mode: Mode, b: Bases, call: BltCall)
    requires Draws(mode, call)
    ensures WordsAligned(CallPlan(mode, b, call)) <==> !SendsWords(mode, b, call) || AlignsWords(mode, b, call)
  {
    hide RoundPlan, WordsAligned, RoundHasWord, RoundCongruent;
    RoundsAligned(mode, b, call, call.height);
    forall i | 0 <= i < call.height
      ensures WordsAligned(RoundPlan(mode, b, call, i)) <==> !RoundHasWord(mode, b, call, i) || RoundCongruent(mode, b, call, i)
    {
      RoundAligned(mode, b, call, i);
    }
    forall i | 0 <= i < call.height && AlignsWords(mode, b, call)
      ensures RoundCongruent(mode, b, call, i)
    {
      if call.op == VideoFill { FillAligned(mode, b, call, i); } else { OwnPlace(mode, b, call, i); }
    }
    if SendsWords(mode, b, call) && WordsAligned(CallPlan(mode, b, call)) {
      var i :| 0 <= i < call.height && RoundHasWord(mode, b, call, i);
      if call.op == VideoFill {
        FillSendsTheSameWords(mode, b, call, i);
        FillPlace(mode, b, call, 0);
        if call.height > 1 { FillPlace(mode, b, call, 1); }
      } else {
        OwnPlace(mode, b, call, i);
      }
    }
  }

  lemma FillAligned(mode: Mode, b: Bases, call: BltCall, i: nat)
    requires i < call.height && call.op == VideoFill && AlignsWords(mode, b, call)
    ensures RoundCongruent(mode, b, call, i)
  {
    hide RoundCongruent;
    FillPlace(mode, b, call, i);
  }

  lemma FillSendsTheSameWords(mode: Mode, b: Bases, call: BltCall, i: nat)
    requires i < call.height && call.op == VideoFill && RoundHasWord(mode, b, call, i)
    ensures forall j :: 0 <= j < call.height ==> RoundHasWord(mode, b, call, j)
  {
    hide HasWord, Off, Wide;
  }

  /** A full-size instance: 1366 x 768 with 24 bits per pixel, where a scan line has 4098 bytes.  With
      both buffers aligned, filling a 2 x 2 square in the corner sends a misaligned word. */
  lemma FillMisalignsWords(layout: Layout)
    requires layout.Valid()
    ensures var mode, call := Mode(1366, 768, 4098, 3, layout), BltCall(VideoFill, 0, 0, 0, 0, 2, 2, 0);
            mode.Valid() && Draws(mode, call) && !WordsAligned(CallPlan(mode, Bases(0, 0), call))
  {
    hide CallPlan;
    var mode, call := Mode(1366, 768, 4098, 3, layout), BltCall(VideoFill, 0, 0, 0, 0, 2, 2, 0);
    CallAlignedIff(mode, Bases(0, 0), call);
    assert Off(0, 4098) == 0 && Wide(mode, 0) == 0 && Wide(mode, 2) == 6;
    hide Off, Wide;
    assert RoundHasWord(mode, Bases(0, 0), call, 0);
  }

  // ----- alignment of a run

  function TrafficOf(mode: Mode, b: Bases, calls: Calls): seq<BusWrite> {
    if calls == [] then []
    else TrafficOf(mode, b, calls[..|calls| - 1]) + CallPlan(mode, b, calls[|calls| - 1].0)
  }

  /** Over a whole run all 32-bit writes are aligned if and only if every call aligns its own. */
  lemma {:induction false} RunAlignedIff(mode: Mode, b: Bases, calls: Calls)
    ensures WordsAligned(TrafficOf(mode, b, calls))
       <==> forall c :: c in calls ==>
              !Draws(mode, c.0) || !SendsWords(mode, b, c.0) || AlignsWords(mode, b, c.0)
    decreases |calls|
  {
    hide WordsAligned, CallPlan, Draws, SendsWords, AlignsWords;
    if calls == [] {
      NoWrites();
    } else {
      var before, last := calls[..|calls| - 1], calls[|calls| - 1];
      RunAlignedIff(mode, b, before);
      AlignedAppend(TrafficOf(mode, b, before), CallPlan(mode, b, last.0));
      CallAligned(mode, b, last.0);
      assert calls == before + [last];
    }
  }

  lemma CallAligned(mode: Mode, b: Bases, call: BltCall)
    ensures WordsAligned(CallPlan(mode, b, call))
       <==> !Draws(mode, call) || !SendsWords(mode, b, call) || AlignsWords(mode, b, call)
  {
    hide SendsWords, AlignsWords, RoundsPlan;
    if Draws(mode, call) { CallAlignedIff(mode, b, call); }
  }
}
