/** The boot option manager as a state machine over values: the list of options shown to the
    user, the BootOrder variable and the Boot#### variables.  A Boolean handed to an operation
    says whether the named variable write succeeds; the keys of a reorder session are a
    sequence. */
module BootModel {
  import opened Words
  import opened Efi
  import opened LoadOption

  /** BDS_LOAD_OPTION: LoadOptionIndex and the packed EFI_LOAD_OPTION. */
  datatype BdsOption = BdsOption(index: u16, image: seq<u8>)

  /** A variable of size zero does not exist. */
  type StoredOrder = o: Option<seq<u16>> | o != Some([]) witness None

  datatype Bds = Bds(list: seq<BdsOption>, order: StoredOrder, boot: map<u16, seq<u8>>)

  /** sizeof(UINT32) + sizeof(UINT16) + sizeof(CHAR16) + sizeof(EFI_DEVICE_PATH_PROTOCOL) */
  const SMALLEST_IMAGE: nat := 12

  const MAX_OPTIONS: nat := 0x1_0000

  function SetVariable(o: seq<u16>): StoredOrder {
    if o == [] then None else Some(o)
  }

  function OrderSeq(order: StoredOrder): seq<u16> {
    match order
    case None => []
    case Some(o) => o
  }

  function Indices(list: seq<BdsOption>): (r: seq<u16>)
    ensures |r| == |list|
    ensures forall i :: 0 <= i < |list| ==> r[i] == list[i].index
  {
    seq(|list|, i requires 0 <= i < |list| => list[i].index)
  }

  ghost predicate Distinct<T>(s: seq<T>) {
    forall i, j :: 0 <= i < j < |s| ==> s[i] != s[j]
  }

  function RemoveAt<T>(s: seq<T>, i: nat): (r: seq<T>)
    requires i < |s|
    ensures |r| == |s| - 1
  {
    s[..i] + s[i + 1..]
  }

  function InsertAt<T>(s: seq<T>, i: nat, x: T): (r: seq<T>)
    requires i <= |s|
    ensures |r| == |s| + 1
  {
    s[..i] + [x] + s[i..]
  }

  function Swap<T>(s: seq<T>, i: nat, j: nat): (r: seq<T>)
    requires i < |s| && j < |s|
    ensures |r| == |s|
  {
    s[i := s[j]][j := s[i]]
  }

  // ----- operations

  /** BootOptionAllocateBootIndex from candidate i on; zero when every index is taken. */
  function FirstFree(order: seq<u16>, i: nat): u16
    decreases MAX_OPTIONS - i
  {
    if i >= MAX_OPTIONS then 0 else if i in order then FirstFree(order, i + 1) else i
  }

  function AllocateIndex(order: StoredOrder): u16 {
    match order
    case None => 0
    case Some(o) => FirstFree(o, 0)
  }

  function CreatedOption(order: StoredOrder, f: Fields): BdsOption {
    BdsOption(AllocateIndex(order), Encode(f.(attributes := 0)))
  }

  /** BootOptionCreate, then InsertTailList if its last write succeeded. */
  function Add(s: Bds, f: Fields, bootOk: bool, orderOk: bool): Bds {
    var o := CreatedOption(s.order, f);
    Bds(if orderOk then s.list + [o] else s.list,
        if orderOk then Some(OrderSeq(s.order) + [o.index]) else s.order,
        if bootOk then s.boot[o.index := o.image] else s.boot)
  }

  /** The option keeps its index and its attributes. */
  function UpdatedOption(o: BdsOption, f: Fields): BdsOption {
    o.(image := Encode(f.(attributes := Attributes(o.image))))
  }

  function Attributes(image: seq<u8>): u32 {
    if |image| < 4 then 0
    else
      FromLeBound(image[0..4]);
      Pow256Values();
      LeAt(image, 0, 4)
  }

  function Update(s: Bds, p: nat, f: Fields, bootOk: bool): Bds
    requires p < |s.list|
  {
    var o := UpdatedOption(s.list[p], f);
    s.(list := s.list[p := o], boot := if bootOk then s.boot[o.index := o.image] else s.boot)
  }

  /** BootOptionDelete's edit of BootOrder: the first occurrence goes; without one, the last
      element goes. */
  function DropOne(o: seq<u16>, x: u16): (r: seq<u16>)
    requires o != []
    ensures |r| == |o| - 1
  {
    if |o| == 1 || o[0] == x then o[1..] else [o[0]] + DropOne(o[1..], x)
  }

  function Remove(s: Bds, p: nat, orderOk: bool, bootOk: bool): Bds
    requires p < |s.list|
  {
    var x := s.list[p].index;
    Bds(RemoveAt(s.list, p),
        if s.order.Some? && orderOk then SetVariable(DropOne(s.order.value, x)) else s.order,
        if bootOk then s.boot - {x} else s.boot)
  }

  /** BootOptionList over the rest of BootOrder: an index without a usable Boot#### is skipped. */
  function LoadFrom(o: seq<u16>, boot: map<u16, seq<u8>>): seq<BdsOption> {
    if o == [] then []
    else if o[0] in boot && |boot[o[0]]| >= SMALLEST_IMAGE then
      [BdsOption(o[0], boot[o[0]])] + LoadFrom(o[1..], boot)
    else LoadFrom(o[1..], boot)
  }

  function Load(order: StoredOrder, boot: map<u16, seq<u8>>): Bds {
    Bds(LoadFrom(OrderSeq(order), boot), order, boot)
  }

  /** The prompt of SelectBootOption: numbers typed in turn, None for an input error. Asking
      fails without BootOrder, and repeats until the number is in range. */
  function SelectNumber(order: StoredOrder, typed: seq<Option<nat>>): (r: Option<nat>)
    ensures r.Some? ==> order.Some? && 1 <= r.value <= |order.value|
  {
    if order.None? || typed == [] || typed[0].None? then None
    else if 1 <= typed[0].value <= |order.value| then typed[0]
    else SelectNumber(order, typed[1..])
  }

  // ----- reordering

  datatype Key = Key(scanCode: u16, unicodeChar: u16)

  datatype KeyAction = MoveUp | MoveDown | SaveOrder | CancelMove | Ignored

  const SCAN_NULL: u16 := 0
  const SCAN_UP: u16 := 1
  const SCAN_DOWN: u16 := 2
  const SCAN_ESC: u16 := 0x17

  function Action(k: Key): KeyAction {
    if k.scanCode == SCAN_NULL && k.unicodeChar in {0x0A, 0x0D, 0x7F} then SaveOrder
    else if k.scanCode == SCAN_UP then MoveUp
    else if k.scanCode == SCAN_DOWN then MoveDown
    else if k.scanCode == SCAN_ESC then CancelMove
    else Ignored
  }

  datatype End = Saved | Cancelled | Interrupted

  datatype Moved = Moved(list: seq<BdsOption>, pos: nat, end: End)

  /** Moving the entry at p under the user's keys; running out of keys is a console error. */
  function MoveEntry(list: seq<BdsOption>, p: nat, keys: seq<Key>): (m: Moved)
    requires p < |list|
    ensures |m.list| == |list| && m.pos < |list|
    decreases |keys|
  {
    if keys == [] then Moved(list, p, Interrupted)
    else
      match Action(keys[0])
      case SaveOrder => Moved(list, p, Saved)
      case CancelMove => Moved(list, p, Cancelled)
      case MoveUp => if p > 0 then MoveEntry(Swap(list, p, p - 1), p - 1, keys[1..])
                     else MoveEntry(list, p, keys[1..])
      case MoveDown => if p + 1 < |list| then MoveEntry(Swap(list, p, p + 1), p + 1, keys[1..])
                       else MoveEntry(list, p, keys[1..])
      case Ignored => MoveEntry(list, p, keys[1..])
  }

  /** Cancel takes the entry out and puts it back behind the entry that preceded it at the start. */
  function Restored(list: seq<BdsOption>, pos: nat, p: nat): seq<BdsOption>
    requires pos < |list| && p < |list|
  {
    InsertAt(RemoveAt(list, pos), p, list[pos])
  }

  datatype Session = Session(typed: seq<Option<nat>>, keys: seq<Key>, setOk: bool)

  /** Saving overwrites as many elements as BootOrder has; only a session that ends that way asks for a
      list that is as long. */
  predicate SaveDefined(s: Bds, m: Moved) {
    m.end.Saved? ==> s.order.Some? && |s.order.value| <= |m.list|
  }

  /** What becomes of the list and BootOrder when the moves m of the entry first at p end. A
      failed save cancels. */
  function Concluded(s: Bds, m: Moved, p: nat, setOk: bool): Bds
    requires m.pos < |m.list| && p < |m.list| && SaveDefined(s, m)
  {
    match m.end
    case Interrupted => s.(list := m.list)
    case Cancelled => s.(list := Restored(m.list, m.pos, p))
    case Saved =>
      if setOk then s.(list := m.list, order := SetVariable(Indices(m.list)[..|s.order.value|]))
      else s.(list := Restored(m.list, m.pos, p))
  }

  /** One entry selected and moved. */
  function MoveSession(s: Bds, p: nat, keys: seq<Key>, setOk: bool): Bds
    requires p < |s.list| && SaveDefined(s, MoveEntry(s.list, p, keys))
  {
    Concluded(s, MoveEntry(s.list, p, keys), p, setOk)
  }

  /** BootMenuReorderBootOptions: sessions until a selection or a key cannot be read. None where
      the C code has undefined behaviour: a number the list does not reach leaves the selected
      entry uninitialised, and saving a list shorter than BootOrder walks past its end. */
  function Reorder(s: Bds, sessions: seq<Session>): Option<Bds>
    decreases |sessions|
  {
    if sessions == [] then Some(s)
    else
      match SelectNumber(s.order, sessions[0].typed)
      case None => Some(s)
      case Some(n) =>
        if n > |s.list| || !SaveDefined(s, MoveEntry(s.list, n - 1, sessions[0].keys)) then None
        else
          var t := MoveSession(s, n - 1, sessions[0].keys, sessions[0].setOk);
          if MoveEntry(s.list, n - 1, sessions[0].keys).end.Interrupted? then Some(t)
          else Reorder(t, sessions[1..])
  }

  // ----- runs

  datatype Event =
    | AddOption(fields: Fields, bootOk: bool, orderOk: bool)
    | UpdateOption(typed: seq<Option<nat>>, fields: Fields, bootOk: bool)
    | RemoveOption(typed: seq<Option<nat>>, orderOk: bool, bootOk: bool)
    | ReorderOptions(sessions: seq<Session>)

  /** None where the C code has undefined behaviour. */
  function Step(s: Bds, e: Event): Option<Bds> {
    match e
    case AddOption(f, bootOk, orderOk) => Some(Add(s, f, bootOk, orderOk))
    case UpdateOption(typed, f, bootOk) =>
      (match SelectNumber(s.order, typed)
       case None => Some(s)
       case Some(n) => if n > |s.list| then None else Some(Update(s, n - 1, f, bootOk)))
    case RemoveOption(typed, orderOk, bootOk) =>
      (match SelectNumber(s.order, typed)
       case None => Some(s)
       case Some(n) => if n > |s.list| then None else Some(Remove(s, n - 1, orderOk, bootOk)))
    case ReorderOptions(sessions) => Reorder(s, sessions)
  }

  function Run(s: Bds, events: seq<Event>): Option<Bds>
    decreases |events|
  {
    if events == [] then Some(s)
    else match Step(s, events[0])
      case None => None
      case Some(t) => Run(t, events[1..])
  }
}
