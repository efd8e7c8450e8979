/** Whether allocated windows lie inside the resource aperture, whose upper limit is all the GCD is told:
    once the aperture is full, its top-down search grants free addresses below the base as well. */
module HostBridgeAperture {
  import opened Words
  import opened Efi
  import opened Gcd
  import opened AcpiDescriptor
  import opened HostBridgeModel
  import opened HostBridgeSafety
  import opened HostBridgeAccounting
  import opened HostBridgeProposal

  predicate AllCallable(es: seq<Event>) {
    forall e :: e in es ==> e.Callable()
  }

  /** Up to the limit, the GCD has no address of this type below the aperture base. */
  predicate NothingBelow(pool: set<int>, base: int, limit: int) {
    forall a :: a in pool && 0 <= a <= limit ==> base <= a
  }

  /** After the run, a non-empty window of this node lies in [base, limit]. */
  predicate WindowInside(h: Host, lim: Limits, es: seq<Event>, i: nat, idx: nat, base: int)
    requires h.WellShaped() && AllCallable(es) && idx <= TYPE_MEM32
  {
    var h' := Run(h, lim, es);
    i < |h'.bridges| ==>
      var n := h'.Node(i, idx);
      n.status == ResAllocated && n.length > 0 ==>
        base <= n.base && n.base + n.length - 1 <= Limit(lim, idx)
  }

  /** Where nothing lies below the base, every window lies in the aperture. */
  lemma AllocatedWindowInAperture(h: Host, lim: Limits, es: seq<Event>, i: nat, idx: nat, base: int)
    requires Initial(h) && AllCallable(es)
    requires idx <= TYPE_MEM32 && NothingBelow(h.Space(idx).pool, base, Limit(lim, idx))
    ensures WindowInside(h, lim, es, i, idx, base)
  {
    InitialShape(h);
    hide Run, Initial, Inv;
    ReachableInv(h, lim, es);
    var h' := Run(h, lim, es);
    if i < |h'.bridges| {
      AllocatedWindowIsOwned(h, lim, es, i, idx);
      var n := h'.Node(i, idx);
      assert n.length > 0 ==> n.base in Span(n.base, n.length);
    }
  }

  // ----- top-down grants

  /** How many of the addresses up to the limit the GCD's search passes over for a request of the given
      length.  It skips an entry of its map that starts less than the length below the limit, or exactly
      the length below the address behind it; where the entries start is the GCD's affair, so this is a
      parameter of every result. */
  type Passing = (GcdSpace, nat) -> nat

  /** The highest address a grant of this length can end at. */
  function Top(limit: int, passes: Passing, s: GcdSpace, length: nat): int {
    limit - if passes(s, length) <= length then passes(s, length) else length
  }

  predicate IsTopDown(s: GcdSpace, bits: nat, length: nat, top: int, base: nat) {
    && Grantable(s, bits, length, top, base)
    && forall b: nat | b in s.pool :: Grantable(s, bits, length, top, b) ==> b <= base
  }

  /** If the visit of this node succeeds, its grant is the highest. */
  predicate TopDownVisit(h: Host, lim: Limits, i: nat, idx: nat, answer: Answer, passes: Passing)
    requires h.WellShaped() && i < |h.bridges| && idx < TYPE_BUS
  {
    var n, s := h.Node(i, idx), h.Space(idx);
    var bits, limit := AllocBits(idx, n.alignment), Limit(lim, idx);
    idx <= TYPE_MEM32 && n.status != ResNone && answer.Grant? && Allocate(s, bits, n.length, limit, answer).1.Success? ==>
      IsTopDown(s, bits, n.length, Top(limit, passes, s, n.length), answer.base)
  }

  /** The visit of node t of bridge i, in the state its phase has reached by then. */
  predicate TopDownAt(h: Host, lim: Limits, answers: seq<Answer>, i: nat, t: nat, passes: Passing)
    requires h.WellShaped() && i < |h.bridges| && t < TYPE_BUS
  {
    var k := TYPE_BUS * i + t;
    TopDownVisit(AllocPrefix(h, lim, answers, k).0, lim, i, t, AnswerAt(answers, k), passes)
  }

  predicate TopDownEvent(h: Host, lim: Limits, e: Event, passes: Passing)
    requires h.WellShaped()
  {
    e.NotifyEvent? && e.phase.AllocateResources? && h.submitted ==>
      forall i, t :: 0 <= i < |h.bridges| && 0 <= t < TYPE_BUS ==> TopDownAt(h, lim, e.answers, i, t, passes)
  }

  /** Every grant of the run is the highest there is. */
  predicate TopDownRun(h: Host, lim: Limits, es: seq<Event>, passes: Passing)
    requires h.WellShaped() && AllCallable(es)
  {
    es == [] || (TopDownRun(h, lim, es[..|es| - 1], passes)
                 && TopDownEvent(Run(h, lim, es[..|es| - 1]), lim, es[|es| - 1], passes))
  }

  /** A run that goes on with one more call. */
  lemma RunExtends(h: Host, lim: Limits, es: seq<Event>, e: Event, passes: Passing)
    requires h.WellShaped() && AllCallable(es) && e.Callable() && TopDownRun(h, lim, es, passes)
    requires TopDownEvent(Run(h, lim, es), lim, e, passes)
    ensures AllCallable(es + [e]) && TopDownRun(h, lim, es + [e], passes)
    ensures Run(h, lim, es + [e]) == Step(Run(h, lim, es), lim, e).0
  {
    hide Step, TopDownEvent;
    assert (es + [e])[..|es|] == es;
  }

  // ----- one round: ask for one address, and get the highest

  /** A request for one address, without alignment. */
  function OneAddress(idx: nat): Descriptor {
    Descriptor(if idx == TYPE_IO then 1 else 0, 0, 0, 32, 0, 0, 0, 1)
  }

  function RequestStream(idx: nat): seq<u8> {
    Print([OneAddress(idx)]) + [END_TAG, 0]
  }

  /** The first root bridge asks for one address, and the GCD grants it the given one. */
  function Round(handle: int, idx: nat, a: nat): seq<Event> {
    [SubmitEvent(handle, Some(RequestStream(idx))),
     NotifyEvent(AllocateResources, seq(idx, _ => Refuse(OutOfResources)) + [Grant(a)])]
  }

  /** At most this node of the first root bridge has been requested or allocated. */
  ghost predicate Lone(h: Host, idx: nat) {
    && h.WellShaped() && |h.bridges| > 0 && idx <= TYPE_MEM32
    && forall i, t :: 0 <= i < |h.bridges| && 0 <= t < TYPE_BUS && (i != 0 || t != idx) ==> h.Node(i, t).status == ResNone
  }

  lemma InitialIsLone(h: Host, idx: nat)
    requires Initial(h) && |h.bridges| > 0 && idx <= TYPE_MEM32
    ensures Lone(h, idx)
  {
  }

  function WithRequest(h: Host, idx: nat): (r: Host)
    requires h.WellShaped() && |h.bridges| > 0 && idx <= TYPE_MEM32
    ensures r.WellShaped() && |r.bridges| == |h.bridges|
  {
    h.WithNode(0, idx, h.Node(0, idx).(length := 1, alignment := 0, status := ResRequested)).(submitted := true)
  }

  lemma SubmitOneAddress(h: Host, idx: nat)
    requires h.WellShaped() && |h.bridges| > 0 && idx <= TYPE_MEM32
    ensures Scannable(RequestStream(idx), 0)
    ensures Submit(h, h.bridges[0].handle, Some(RequestStream(idx))).0 == WithRequest(h, idx)
  {
    var s, d, b := RequestStream(idx), OneAddress(idx), h.bridges[0];
    PrintScans([d]);
    assert Decode(s, RECORD_SIZE * 0) == [d][0] == d;
    hide Decode, Print, Scannable, RecordCount, GetPowerOfTwo64;
    var p := Submission(true, b.nodes, h.submitted);
    assert SubmitPrefix(p, b.attrib, s, 1) == SubmitOne(SubmitPrefix(p, b.attrib, s, 0), b.attrib, d);
    ZeroMaskPasses();
    assert SubmitOne(p, b.attrib, d)
        == Submission(true, b.nodes[idx := b.nodes[idx].(length := 1, alignment := 0, status := ResRequested)], true);
  }

  /** The state after the grant of address a. */
  function Granted(h: Host, idx: nat, a: nat): (r: Host)
    requires h.WellShaped() && |h.bridges| > 0 && idx <= TYPE_MEM32
    ensures r.WellShaped() && |r.bridges| == |h.bridges|
  {
    h.WithSpace(idx, h.Space(idx).(owned := h.Space(idx).owned + Span(a, 1)))
     .WithNode(0, idx, ResNode(a, 1, 0, ResAllocated))
  }

  predicate IsFree(s: GcdSpace, a: int) {
    a in s.pool && a !in s.owned
  }

  lemma OneIsGrantable(s: GcdSpace, max: int, a: nat)
    ensures Grantable(s, 0, 1, max, a) <==> IsFree(s, a) && a <= max
  {
    assert Pow2(0) == 1 && Span(a, 0) == {} && Span(a, 1) == {a};
  }

  /** The one node that is not idle asks for one address. */
  ghost predicate AsksForOne(h: Host, idx: nat) {
    && Lone(h, idx)
    && h.Node(0, idx).status == ResRequested && h.Node(0, idx).length == 1 && h.Node(0, idx).alignment == 0
  }

  lemma VisitGrants(h: Host, lim: Limits, ret: EfiStatus, idx: nat, a: nat)
    requires AsksForOne(h, idx) && IsFree(h.Space(idx), a) && a <= Limit(lim, idx)
    ensures AllocNode(h, lim, ret, 0, idx, Grant(a)).0 == Granted(h, idx, a)
  {
    OneIsGrantable(h.Space(idx), Limit(lim, idx), a);
    assert AllocBits(idx, 0) == 0;
    hide AllocBits, Grantable, Lone;
  }

  lemma IdleVisit(h: Host, lim: Limits, ret: EfiStatus, i: nat, t: nat, answer: Answer)
    requires h.WellShaped() && i < |h.bridges| && t < TYPE_BUS && h.Node(i, t).status == ResNone
    ensures AllocNode(h, lim, ret, i, t, answer).0 == h
  {
    hide AllocBits, Allocate;
  }

  lemma GrantedIdle(h: Host, idx: nat, a: nat, i: nat, t: nat)
    requires Lone(h, idx) && i < |h.bridges| && t < TYPE_BUS && (i != 0 || t != idx)
    ensures h.Node(i, t).status == ResNone && Granted(h, idx, a).Node(i, t).status == ResNone
  {
  }

  /** The visits of the phase find nothing to do but at the one node. */
  lemma {:induction false} LonePrefix(h: Host, lim: Limits, answers: seq<Answer>, idx: nat, a: nat, k: nat)
    requires AsksForOne(h, idx) && h.WellShaped() && k <= TYPE_BUS * |h.bridges|
    requires AnswerAt(answers, idx) == Grant(a) && IsFree(h.Space(idx), a) && a <= Limit(lim, idx)
    ensures AllocPrefix(h, lim, answers, k).0 == if k <= idx then h else Granted(h, idx, a)
    decreases k
  {
    hide AllocNode, AllocPrefix, AnswerAt, Host.Node, Host.Space, Host.WellShaped, Granted, IsFree, AsksForOne;
    AsksMeans(h, idx);
    if k == 0 {
      AllocPrefixZero(h, lim, answers);
    } else {
      LonePrefix(h, lim, answers, idx, a, k - 1);
      var i, t := AllocPrefixStep(h, lim, answers, k);
      var p := AllocPrefix(h, lim, answers, k - 1);
      if k - 1 == idx {
        VisitGrants(h, lim, p.1, idx, a);
      } else {
        GrantedIdle(h, idx, a, i, t);
        IdleVisit(p.0, lim, p.1, i, t, AnswerAt(answers, k - 1));
      }
    }
  }

  lemma AsksMeans(h: Host, idx: nat)
    requires AsksForOne(h, idx)
    ensures h.WellShaped() && Lone(h, idx) && |h.bridges| > 0 && idx <= TYPE_MEM32
  {
  }

  /** No free address above a, up to top. */
  predicate HighestFree(s: GcdSpace, top: int, a: int) {
    IsFree(s, a) && a <= top && forall b | b in s.pool :: IsFree(s, b) && b <= top ==> b <= a
  }

  lemma LonePhase(h: Host, lim: Limits, answers: seq<Answer>, idx: nat, a: nat, passes: Passing)
    requires AsksForOne(h, idx) && h.WellShaped() && AnswerAt(answers, idx) == Grant(a)
    requires HighestFree(h.Space(idx), Top(Limit(lim, idx), passes, h.Space(idx), 1), a)
    ensures TopDownEvent(h, lim, NotifyEvent(AllocateResources, answers), passes)
    ensures AllocPrefix(h, lim, answers, TYPE_BUS * |h.bridges|).0 == Granted(h, idx, a)
  {
    hide AllocPrefix, AnswerAt, Granted, AsksForOne, TopDownAt, Host.Space, Host.WellShaped, Lone;
    AsksMeans(h, idx);
    LonePrefix(h, lim, answers, idx, a, TYPE_BUS * |h.bridges|);
    forall i, t | 0 <= i < |h.bridges| && 0 <= t < TYPE_BUS ensures TopDownAt(h, lim, answers, i, t, passes) {
      LoneVisit(h, lim, answers, idx, a, passes, i, t);
    }
  }

  lemma LoneVisit(h: Host, lim: Limits, answers: seq<Answer>, idx: nat, a: nat, passes: Passing, i: nat, t: nat)
    requires AsksForOne(h, idx) && h.WellShaped() && AnswerAt(answers, idx) == Grant(a)
    requires HighestFree(h.Space(idx), Top(Limit(lim, idx), passes, h.Space(idx), 1), a)
    requires i < |h.bridges| && t < TYPE_BUS
    ensures TopDownAt(h, lim, answers, i, t, passes)
  {
    hide AllocPrefix, AnswerAt, Granted, AsksForOne, TopDownVisit, Host.Space, Host.WellShaped, Lone;
    AsksMeans(h, idx);
    var k := TYPE_BUS * i + t;
    LonePrefix(h, lim, answers, idx, a, k);
    if i == 0 && t == idx {
      TopVisit(h, lim, idx, a, passes);
    } else {
      GrantedIdle(h, idx, a, i, t);
      IdleVisitIsTopDown(AllocPrefix(h, lim, answers, k).0, lim, i, t, AnswerAt(answers, k), passes);
    }
  }

  lemma TopVisit(h: Host, lim: Limits, idx: nat, a: nat, passes: Passing)
    requires AsksForOne(h, idx) && HighestFree(h.Space(idx), Top(Limit(lim, idx), passes, h.Space(idx), 1), a)
    ensures TopDownVisit(h, lim, 0, idx, Grant(a), passes)
  {
    var s := h.Space(idx);
    var top := Top(Limit(lim, idx), passes, s, 1);
    forall b: nat ensures Grantable(s, 0, 1, top, b) <==> IsFree(s, b) && b <= top {
      OneIsGrantable(s, top, b);
    }
    assert AllocBits(idx, 0) == 0;
    hide AllocBits, Grantable, Lone, Allocate, Top;
  }

  lemma IdleVisitIsTopDown(h: Host, lim: Limits, i: nat, t: nat, answer: Answer, passes: Passing)
    requires h.WellShaped() && i < |h.bridges| && t < TYPE_BUS && h.Node(i, t).status == ResNone
    ensures TopDownVisit(h, lim, i, t, answer, passes)
  {
    hide AllocBits, Allocate, IsTopDown;
  }

  /** The run that goes on with a round grants it the highest free address, and leaves the other nodes idle. */
  lemma RoundGrants(h: Host, lim: Limits, es: seq<Event>, idx: nat, a: nat, passes: Passing)
    requires h.WellShaped() && AllCallable(es) && TopDownRun(h, lim, es, passes) && Lone(Run(h, lim, es), idx)
    requires var s := Run(h, lim, es).Space(idx); HighestFree(s, Top(Limit(lim, idx), passes, s, 1), a)
    ensures var cur := Run(h, lim, es);
            var es' := es + Round(cur.bridges[0].handle, idx, a);
            && AllCallable(es') && TopDownRun(h, lim, es', passes)
            && Run(h, lim, es') == Granted(WithRequest(cur, idx), idx, a)
  {
    hide Run, TopDownRun, AllocPrefix, Granted, AnswerAt, HighestFree, Submit, Scannable, RequestStream, Round,
         AsksForOne, TopDownEvent, WithRequest, Lone, Top;
    var cur := Run(h, lim, es);
    LoneMeans(cur, idx);
    var r := Round(cur.bridges[0].handle, idx, a);
    RoundIs(cur.bridges[0].handle, idx, a);
    SubmitOneAddress(cur, idx);
    SubmitIsTopDown(cur, lim, r[0], passes);
    RunExtends(h, lim, es, r[0], passes);
    RequestAsks(cur, idx);
    LonePhase(WithRequest(cur, idx), lim, r[1].answers, idx, a, passes);
    RunExtends(h, lim, es + [r[0]], r[1], passes);
    assert es + r == es + [r[0]] + [r[1]];
  }

  lemma LoneMeans(h: Host, idx: nat)
    requires Lone(h, idx)
    ensures h.WellShaped() && |h.bridges| > 0 && idx <= TYPE_MEM32
  {
  }

  lemma SubmitIsTopDown(h: Host, lim: Limits, e: Event, passes: Passing)
    requires h.WellShaped() && e.SubmitEvent?
    ensures TopDownEvent(h, lim, e, passes)
  {
  }

  lemma RequestAsks(h: Host, idx: nat)
    requires Lone(h, idx)
    ensures AsksForOne(WithRequest(h, idx), idx) && WithRequest(h, idx).submitted
    ensures WithRequest(h, idx).Space(idx) == h.Space(idx)
  {
    var g := WithRequest(h, idx);
    forall i, t | 0 <= i < |h.bridges| && 0 <= t < TYPE_BUS && (i != 0 || t != idx) ensures g.Node(i, t).status == ResNone {
      assert h.Node(i, t).status == ResNone;
    }
  }

  lemma RoundIs(handle: int, idx: nat, a: nat)
    ensures var r := Round(handle, idx, a);
            && |r| == 2 && r[0] == SubmitEvent(handle, Some(RequestStream(idx)))
            && r[1].NotifyEvent? && r[1].phase == AllocateResources && AnswerAt(r[1].answers, idx) == Grant(a)
  {
  }

  // ----- the run that exhausts the aperture

  /** Where an address up to the limit is free, one is the highest. */
  lemma HighestFreeExists(s: GcdSpace, top: int, low: nat) returns (a: nat)
    requires IsFree(s, low) && low <= top
    ensures HighestFree(s, top, a) && low <= a
    decreases top - low
  {
    if b :| b in s.pool && IsFree(s, b) && low < b <= top {
      a := HighestFreeExists(s, top, b);
    } else {
      a := low;
    }
  }

  /** The search reaches the address, whatever it passes over. */
  ghost predicate Reaches(limit: int, passes: Passing, low: nat) {
    forall s: GcdSpace :: low <= Top(limit, passes, s, 1)
  }

  lemma RoundEnds(h: Host, idx: nat, a: nat)
    requires Lone(h, idx) && IsFree(h.Space(idx), a)
    ensures var g := Granted(WithRequest(h, idx), idx, a);
            && Lone(g, idx) && g.Node(0, idx) == ResNode(a, 1, 0, ResAllocated)
            && g.Space(idx).pool == h.Space(idx).pool
            && g.Space(idx).pool - g.Space(idx).owned == (h.Space(idx).pool - h.Space(idx).owned) - {a}
  {
    RequestAsks(h, idx);
    var r := WithRequest(h, idx);
    var g := Granted(r, idx, a);
    forall i, t | 0 <= i < |h.bridges| && 0 <= t < TYPE_BUS && (i != 0 || t != idx) ensures g.Node(i, t).status == ResNone {
      GrantedIdle(r, idx, a, i, t);
    }
    assert Span(a, 1) == {a};
  }

  /** Asking for one address again and again, the first root bridge ends up with any free address the
      search reaches: every round takes the highest, so there is one fewer above it. */
  lemma {:induction false} Exhaust(h: Host, lim: Limits, es: seq<Event>, idx: nat, low: nat, passes: Passing)
      returns (es': seq<Event>)
    requires h.WellShaped() && AllCallable(es) && TopDownRun(h, lim, es, passes) && Lone(Run(h, lim, es), idx)
    requires IsFree(Run(h, lim, es).Space(idx), low) && Reaches(Limit(lim, idx), passes, low)
    ensures AllCallable(es') && TopDownRun(h, lim, es', passes) && Lone(Run(h, lim, es'), idx)
    ensures Run(h, lim, es').Node(0, idx) == ResNode(low, 1, 0, ResAllocated)
    decreases Run(h, lim, es).Space(idx).pool - Run(h, lim, es).Space(idx).owned
  {
    hide Run, TopDownRun, Lone, Granted, WithRequest, Round, Top, HighestFree;
    var cur := Run(h, lim, es);
    LoneMeans(cur, idx);
    var s := cur.Space(idx);
    var a := HighestFreeExists(s, Top(Limit(lim, idx), passes, s, 1), low);
    HighestIsFree(s, Top(Limit(lim, idx), passes, s, 1), a);
    RoundGrants(h, lim, es, idx, a, passes);
    RoundEnds(cur, idx, a);
    es' := es + Round(cur.bridges[0].handle, idx, a);
    if a != low {
      assert Run(h, lim, es').Space(idx).pool - Run(h, lim, es').Space(idx).owned == s.pool - s.owned - {a};
      es' := Exhaust(h, lim, es', idx, low, passes);
    }
  }

  lemma HighestIsFree(s: GcdSpace, top: int, a: int)
    requires HighestFree(s, top, a)
    ensures IsFree(s, a)
  {
  }

  /** Any free address the search reaches can end up as a root bridge's window, below the base or not. */
  lemma SpillsBelow(h: Host, lim: Limits, idx: nat, low: nat, passes: Passing) returns (es: seq<Event>)
    requires Initial(h) && |h.bridges| > 0 && idx <= TYPE_MEM32
    requires low in h.Space(idx).pool && Reaches(Limit(lim, idx), passes, low)
    ensures h.WellShaped() && AllCallable(es) && TopDownRun(h, lim, es, passes)
    ensures var h' := Run(h, lim, es);
            |h'.bridges| > 0 && h'.Node(0, idx) == ResNode(low, 1, 0, ResAllocated)
  {
    InitialIsLone(h, idx);
    hide Lone, TopDownEvent;
    es := Exhaust(h, lim, [], idx, low, passes);
    LoneMeans(Run(h, lim, es), idx);
  }

  // ----- the exact condition

  /** In every run of top-down grants and for every root bridge, windows of this type lie in [base, limit]. */
  ghost predicate AlwaysInside(h: Host, lim: Limits, idx: nat, base: int, passes: Passing)
    requires h.WellShaped() && idx <= TYPE_MEM32
  {
    forall es: seq<Event>, i: nat :: AllCallable(es) && TopDownRun(h, lim, es, passes) ==> WindowInside(h, lim, es, i, idx, base)
  }

  /** The search reaches every free address below the base; only where the aperture has no address at all
      could it pass over one, the limit itself. */
  ghost predicate SearchReaches(lim: Limits, idx: nat, base: int, passes: Passing) {
    base <= Limit(lim, idx) || forall s: GcdSpace :: passes(s, 1) == 0
  }

  /** Windows lie inside the aperture in every run if and only if the GCD has no free address of the
      type below its base. */
  lemma InApertureIff(h: Host, lim: Limits, idx: nat, base: int, passes: Passing)
    requires Initial(h) && |h.bridges| > 0 && idx <= TYPE_MEM32
    requires SearchReaches(lim, idx, base, passes)
    ensures AlwaysInside(h, lim, idx, base, passes) <==> NothingBelow(h.Space(idx).pool, base, Limit(lim, idx))
  {
    InitialShape(h);
    hide Initial, WindowInside, TopDownRun;
    if NothingBelow(h.Space(idx).pool, base, Limit(lim, idx)) {
      forall es: seq<Event>, i: nat | AllCallable(es) ensures WindowInside(h, lim, es, i, idx, base) {
        AllocatedWindowInAperture(h, lim, es, i, idx, base);
      }
    } else {
      var low :| low in h.Space(idx).pool && 0 <= low <= Limit(lim, idx) && low < base;
      var es := SpillsBelow(h, lim, idx, low, passes);
      SpillIsOutside(h, lim, es, idx, base, low);
    }
  }

  lemma SpillIsOutside(h: Host, lim: Limits, es: seq<Event>, idx: nat, base: int, low: nat)
    requires h.WellShaped() && idx <= TYPE_MEM32 && low < base
    requires AllCallable(es) && |Run(h, lim, es).bridges| > 0
    requires Run(h, lim, es).Node(0, idx) == ResNode(low, 1, 0, ResAllocated)
    ensures !WindowInside(h, lim, es, 0, idx, base)
  {
  }
}
