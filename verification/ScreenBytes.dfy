/** What a call of the frame buffer driver leaves in each byte of the screen, the shadow and the Blt buffer,
    said with addresses, bits and the caller's bytes alone. */
module ScreenBytes {
  import opened Slices
  import opened Raster
  import opened Pixels
  import opened BltModel
  import opened BltPlane
  import opened BltReadback

  /** Where byte k of pixel (x, y) lies in a frame buffer. */
  function ByteAt(mode: Mode, x: nat, y: nat, k: nat): nat {
    y * mode.pitch + x * mode.pixelWidth + k
  }

  /** Where the pixel in column x, row y of a Blt buffer starts; a stride of zero means rows without a gap. */
  function BltAt(call: BltCall, x: nat, y: nat): nat {
    y * (if call.delta == 0 then call.width * 4 else call.delta) + x * 4
  }

  predicate OnScreen(mode: Mode, x: nat, y: nat, k: nat) {
    x < mode.hres && y < mode.vres && k < mode.pixelWidth
  }

  lemma ByteInRow(mode: Mode, x: nat, y: nat, k: nat)
    requires mode.Valid() && OnScreen(mode, x, y, k)
    ensures x * mode.pixelWidth + k < mode.pitch
    ensures ByteAt(mode, x, y, k) < Off(mode.vres, mode.pitch)
    ensures ByteAt(mode, x, y, k) == Off(y, mode.pitch) + Wide(mode, x) + k
  {
    OffMonotone(y, mode.vres, mode.pitch);
    ColumnsFit(mode, x, 1);
    WideAdds(mode, x, 1);
  }

  /** A byte of a flat frame buffer is a byte of its row. */
  lemma RowByte(mode: Mode, m: Bytes, x: nat, y: nat, k: nat)
    requires mode.Valid() && OnScreen(mode, x, y, k) && |m| == Off(mode.vres, mode.pitch)
    ensures Wide(mode, x) + k < mode.pitch && ByteAt(mode, x, y, k) < |m|
    ensures m[ByteAt(mode, x, y, k)] == Rows(m, mode.pitch, mode.vres)[y][Wide(mode, x) + k]
  {
    ByteInRow(mode, x, y, k);
    var c := Wide(mode, x) + k;
    ReadRow(m, mode.pitch, mode.vres, y, c, 1);
    hide Off, Rows, Wide;
    var o := Off(y, mode.pitch);
    assert m[o + c..o + c + 1][0] == m[o + c];
    assert Rows(m, mode.pitch, mode.vres)[y][c..c + 1][0] == Rows(m, mode.pitch, mode.vres)[y][c];
  }

  /** Pixel (i, j) of the call's rectangle, whose corner is (x, y), lies in the Blt buffer. */
  lemma BltInside(call: BltCall, x: nat, y: nat, i: nat, j: nat)
    requires i < call.width && j < call.height
    ensures BltAt(call, x + i, y + j) == call.BltRowStart(x, y, j) + i * 4
    ensures BltAt(call, x + i, y + j) + 4 <= call.BltRowEnd(x, y)
  {
    BltRowInside(call, x, y, j);
    assert BltAt(call, x + i, y + j) == Off(y + j, call.Delta()) + (x + i) * 4;
  }

  // ----- drawing

  /** Byte k of a screen pixel shows the Blt pixel at offset o: blue, green and red in its bytes 0, 1 and 2.
      Bit b is bit 8 * k + b of the channel that covers that; a channel of eight bits whose place is bit
      8 * k is the byte, if the channels are apart. */
  ghost predicate ShowsPixel(mode: Mode, blt: Bytes, o: nat, k: nat, v: bv8)
    requires mode.Valid() && k < mode.pixelWidth && o + 4 <= |blt|
  {
    var l := mode.layout;
    && HoldsBits(l, BltPixel(blue := blt[o], green := blt[o + 1], red := blt[o + 2], reserved := blt[o + 3]), k, v)
    && (Separate(l) ==>
          && (l.blueMask == 0xFF && l.blueAt == FirstBit(k) ==> v == blt[o])
          && (l.greenMask == 0xFF && l.greenAt == FirstBit(k) ==> v == blt[o + 1])
          && (l.redMask == 0xFF && l.redAt == FirstBit(k) ==> v == blt[o + 2]))
  }

  lemma PackedShows(mode: Mode, blt: Bytes, o: nat, k: nat)
    requires mode.Valid() && k < mode.pixelWidth && o + 4 <= |blt|
    ensures ShowsPixel(mode, blt, o, k, PixelBytes(mode, BltPixelAt(blt, o))[k])
  {
    hide HoldsBits, Separate, Pack, WordBytes;
    var px := BltPixelAt(blt, o);
    WordSize(Pack(mode.layout, px));
    var v := WordBytes(Pack(mode.layout, px))[k];
    assert PixelBytes(mode, px)[k] == v;
    PackedByte(mode.layout, px, k, v);
    if Separate(mode.layout) {
      WholeByte(mode.layout, px, k, v);
    }
  }

  lemma WordSize(v: bv32)
    ensures |WordBytes(v)| == 4
  {
  }

  predicate InTarget(call: BltCall, x: nat, y: nat) {
    call.dx <= x < call.dx + call.width && call.dy <= y < call.dy + call.height
  }

  ghost predicate Drawing(mode: Mode, call: BltCall, shadow: Bytes, was: Bytes, blt: Bytes) {
    && mode.Valid() && |shadow| == |was| == Off(mode.vres, mode.pitch)
    && call.Accepted(mode) && call.Owes(mode, |blt|) && call.op != VideoToBltBuffer
  }

  /** What byte k of pixel (x, y) becomes, in the screen or the shadow, which held `was`. */
  ghost predicate Drawn(mode: Mode, call: BltCall, shadow: Bytes, was: Bytes, blt: Bytes, x: nat, y: nat, k: nat, v: bv8)
    requires Drawing(mode, call, shadow, was, blt) && OnScreen(mode, x, y, k)
  {
    ByteInRow(mode, x, y, k);
    if !InTarget(call, x, y) then v == was[ByteAt(mode, x, y, k)]
    else
      var i, j := x - call.dx, y - call.dy;
      match call.op
      case VideoToVideo =>
        ByteInRow(mode, call.sx + i, call.sy + j, k);
        v == shadow[ByteAt(mode, call.sx + i, call.sy + j, k)]
      case VideoFill => ShowsPixel(mode, blt, 0, k, v)
      case BufferToVideo =>
        BltInside(call, call.sx, call.sy, i, j);
        ShowsPixel(mode, blt, BltAt(call, call.sx + i, call.sy + j), k, v)
  }

  /** The whole buffer. */
  ghost predicate DrawsAll(mode: Mode, call: BltCall, shadow: Bytes, was: Bytes, blt: Bytes, now: Bytes)
    requires Drawing(mode, call, shadow, was, blt) && |now| == |was|
  {
    forall x: nat, y: nat, k: nat | OnScreen(mode, x, y, k) ::
      ByteInRow(mode, x, y, k);
      Drawn(mode, call, shadow, was, blt, x, y, k, now[ByteAt(mode, x, y, k)])
  }

  lemma SliceByte(s: Bytes, a: nat, n: nat, k: nat, d: Bytes)
    requires a + n <= |s| && s[a..a + n] == d && k < n
    ensures |d| == n && s[a + k] == d[k]
  {
  }

  /** Byte k of the pixel that a writing call puts at column i, row j of its rectangle. */
  lemma NewByte(mode: Mode, call: BltCall, shadow: Bytes, was: Bytes, blt: Bytes, i: nat, j: nat, k: nat)
    requires Drawing(mode, call, shadow, was, blt) && i < call.width && j < call.height && k < mode.pixelWidth
    ensures OnScreen(mode, call.dx + i, call.dy + j, k)
    ensures Ready(mode, call, Rows(shadow, mode.pitch, mode.vres), blt)
    ensures var row := NewRow(mode, call, Rows(shadow, mode.pitch, mode.vres), blt, j);
            Wide(mode, i) + k < |row| && Drawn(mode, call, shadow, was, blt, call.dx + i, call.dy + j, k, row[Wide(mode, i) + k])
  {
    hide ShowsPixel, PixelBytes, BltPixelAt, Off, Wide, Rows, NewRow, PlaneOf;
    var img := Rows(shadow, mode.pitch, mode.vres);
    var row := NewRow(mode, call, img, blt, j);
    NewRowPixel(mode, call, img, blt, i, j);
    var px := NewPixel(mode, call, PlaneOf(mode, img), blt, i, j);
    SliceByte(row, Wide(mode, i), mode.pixelWidth, k, px);
    PixelDrawn(mode, call, shadow, was, blt, i, j, k, row[Wide(mode, i) + k]);
  }

  /** Byte k of a new pixel. */
  lemma PixelDrawn(mode: Mode, call: BltCall, shadow: Bytes, was: Bytes, blt: Bytes, i: nat, j: nat, k: nat, v: bv8)
    requires Drawing(mode, call, shadow, was, blt) && i < call.width && j < call.height && k < mode.pixelWidth
    requires OnScreen(mode, call.dx + i, call.dy + j, k)
    requires var img := Rows(shadow, mode.pitch, mode.vres);
             && Fits(mode, img) && PlaneFits(mode, PlaneOf(mode, img))
             && var px := NewPixel(mode, call, PlaneOf(mode, img), blt, i, j);
             k < |px| && v == px[k]
    ensures Drawn(mode, call, shadow, was, blt, call.dx + i, call.dy + j, k, v)
  {
    hide ShowsPixel, PixelBytes, BltPixelAt, Off, Wide, Rows, PlaneOf;
    match call.op
    case VideoFill => PackedShows(mode, blt, 0, k);
    case BufferToVideo =>
      BltInside(call, call.sx, call.sy, i, j);
      PackedShows(mode, blt, BltAt(call, call.sx + i, call.sy + j), k);
    case VideoToVideo =>
      PlaneByte(mode, shadow, call.sx + i, call.sy + j, k);
  }

  /** The plane's pixels are the frame buffer's bytes. */
  lemma PlaneByte(mode: Mode, m: Bytes, x: nat, y: nat, k: nat)
    requires mode.Valid() && |m| == Off(mode.vres, mode.pitch) && OnScreen(mode, x, y, k)
    ensures ByteAt(mode, x, y, k) < |m|
    ensures var p := PlaneOf(mode, Rows(m, mode.pitch, mode.vres));
            |p[y][x]| == mode.pixelWidth && p[y][x][k] == m[ByteAt(mode, x, y, k)]
  {
    hide Off, Wide, Rows;
    RowByte(mode, m, x, y, k);
    var img := Rows(m, mode.pitch, mode.vres);
    ColumnsFit(mode, x, 1);
    WideAdds(mode, x, 1);
    assert PlaneOf(mode, img)[y] == RowPixels(mode, img[y]);
    SliceByte(img[y], Wide(mode, x), mode.pixelWidth, k, PixelIn(mode, img[y], x));
  }

  lemma PatchedByte(row: Bytes, c: nat, d: Bytes, a: nat)
    requires c + |d| <= |row| && a < |row|
    ensures |Patch(row, c, d)| == |row|
    ensures Patch(row, c, d)[a] == if c <= a < c + |d| then d[a - c] else row[a]
  {
  }

  /** Which bytes of a row belong to pixels of the target columns. */
  lemma ColumnByte(mode: Mode, call: BltCall, x: nat, k: nat)
    requires mode.Valid() && x < mode.hres && k < mode.pixelWidth && call.dx + call.width <= mode.hres
    ensures Wide(mode, call.dx) + Wide(mode, call.width) <= mode.pitch && Wide(mode, x) + k < mode.pitch
    ensures call.dx <= x < call.dx + call.width
       <==> Wide(mode, call.dx) <= Wide(mode, x) + k < Wide(mode, call.dx) + Wide(mode, call.width)
    ensures call.dx <= x ==> Wide(mode, x) == Wide(mode, call.dx) + Wide(mode, x - call.dx)
  {
    ColumnsFit(mode, call.dx, call.width);
    ColumnsFit(mode, x, 1);
    WideAdds(mode, x, 1);
    hide Wide;
    if x < call.dx {
      WideAdds(mode, x + 1, call.dx - x - 1);
      WideAdds(mode, x, 1);
    } else {
      WideAdds(mode, call.dx, x - call.dx);
      if x < call.dx + call.width {
        WideAdds(mode, x + 1, call.dx + call.width - x - 1);
        WideAdds(mode, call.dx, call.width);
      } else {
        WideAdds(mode, call.dx + call.width, x - call.dx - call.width);
        WideAdds(mode, call.dx, call.width);
      }
    }
  }

  /** A byte of an image after the call's rows are stored. */
  lemma StoredInImage(mode: Mode, call: BltCall, img: Image, target: Image, blt: Bytes, x: nat, y: nat, k: nat)
    requires Ready(mode, call, img, blt) && call.op != VideoToBltBuffer && Fits(mode, target) && OnScreen(mode, x, y, k)
    ensures var c := Wide(mode, x) + k;
            && c < mode.pitch && |target[y]| == mode.pitch
            && var r := Store(mode, call, target, NewRows(mode, call, img, blt))[y];
            && |r| == mode.pitch
            && if InTarget(call, x, y) then
                 var row := NewRow(mode, call, img, blt, y - call.dy);
                 Wide(mode, x - call.dx) + k < |row| && r[c] == row[Wide(mode, x - call.dx) + k]
               else r[c] == target[y][c]
  {
    hide Wide, NewRow, Patch;
    ColumnByte(mode, call, x, k);
    if call.dy <= y < call.dy + call.height {
      var row := NewRow(mode, call, img, blt, y - call.dy);
      assert NewRows(mode, call, img, blt)[y - call.dy] == row;
      PatchedByte(target[y], Wide(mode, call.dx), row, Wide(mode, x) + k);
    }
  }

  lemma Untouched(mode: Mode, call: BltCall, shadow: Bytes, was: Bytes, blt: Bytes, x: nat, y: nat, k: nat, v: bv8)
    requires Drawing(mode, call, shadow, was, blt) && OnScreen(mode, x, y, k) && !InTarget(call, x, y)
    requires ByteAt(mode, x, y, k) < |was| && v == was[ByteAt(mode, x, y, k)]
    ensures Drawn(mode, call, shadow, was, blt, x, y, k, v)
  {
    hide ByteAt, ShowsPixel;
  }

  lemma DrawingMeans(mode: Mode, call: BltCall, shadow: Bytes, was: Bytes, blt: Bytes)
    requires Drawing(mode, call, shadow, was, blt)
    ensures mode.Valid() && call.op != VideoToBltBuffer && |was| == |shadow| == Off(mode.vres, mode.pitch)
    ensures Fits(mode, Rows(shadow, mode.pitch, mode.vres)) && Fits(mode, Rows(was, mode.pitch, mode.vres))
  {
  }

  /** A byte of the buffer, from what it is in the image of rows. */
  lemma StoredByte(mode: Mode, call: BltCall, shadow: Bytes, was: Bytes, blt: Bytes, x: nat, y: nat, k: nat, v: bv8)
    requires Drawing(mode, call, shadow, was, blt) && OnScreen(mode, x, y, k)
    requires Ready(mode, call, Rows(shadow, mode.pitch, mode.vres), blt) && ByteAt(mode, x, y, k) < |was|
    requires if InTarget(call, x, y) then
               var row := NewRow(mode, call, Rows(shadow, mode.pitch, mode.vres), blt, y - call.dy);
               Wide(mode, x - call.dx) + k < |row| && v == row[Wide(mode, x - call.dx) + k]
             else v == was[ByteAt(mode, x, y, k)]
    ensures Drawn(mode, call, shadow, was, blt, x, y, k, v)
  {
    hide Drawn, Wide, Rows, NewRow, ByteAt, Ready, Off, Drawing;
    if InTarget(call, x, y) {
      NewByte(mode, call, shadow, was, blt, x - call.dx, y - call.dy, k);
    } else {
      Untouched(mode, call, shadow, was, blt, x, y, k, v);
    }
  }

  /** Storing a call's rows, byte by byte. */
  lemma StoreDraws(mode: Mode, call: BltCall, shadow: Bytes, was: Bytes, blt: Bytes, now: Bytes)
    requires Drawing(mode, call, shadow, was, blt) && |now| == |was|
    requires Ready(mode, call, Rows(shadow, mode.pitch, mode.vres), blt)
    requires Rows(now, mode.pitch, mode.vres)
          == Store(mode, call, Rows(was, mode.pitch, mode.vres), NewRows(mode, call, Rows(shadow, mode.pitch, mode.vres), blt))
    ensures DrawsAll(mode, call, shadow, was, blt, now)
  {
    hide Drawing, Drawn, Rows, Store, NewRows, NewRow, OnScreen, Ready, ByteAt, Fits, Wide, Off;
    DrawingMeans(mode, call, shadow, was, blt);
    var img, target := Rows(shadow, mode.pitch, mode.vres), Rows(was, mode.pitch, mode.vres);
    forall x: nat, y: nat, k: nat | OnScreen(mode, x, y, k)
      ensures ByteAt(mode, x, y, k) < |now| && Drawn(mode, call, shadow, was, blt, x, y, k, now[ByteAt(mode, x, y, k)])
    {
      RowByte(mode, was, x, y, k);
      RowByte(mode, now, x, y, k);
      StoredInImage(mode, call, img, target, blt, x, y, k);
      StoredByte(mode, call, shadow, was, blt, x, y, k, now[ByteAt(mode, x, y, k)]);
    }
  }

  // ----- reading

  /** The Blt pixel at offset o is what the four screen bytes s show: blue, green and red go to its bytes 0,
      1 and 2, and byte 3 becomes zero.  A channel of eight bits whose place is bit 8 * k is byte k. */
  ghost predicate ReadsPixel(mode: Mode, s: Bytes, blt: Bytes, o: nat)
    requires mode.Valid() && |s| == 4 && o + 4 <= |blt|
  {
    var l := mode.layout;
    && ReadsBits(l.blueMask, l.blueAt, s, blt[o]) && ReadsBits(l.greenMask, l.greenAt, s, blt[o + 1])
    && ReadsBits(l.redMask, l.redAt, s, blt[o + 2]) && blt[o + 3] == 0
    && forall k | 0 <= k < 4 ::
         && (l.blueMask == 0xFF && l.blueAt == FirstBit(k) ==> blt[o] == s[k])
         && (l.greenMask == 0xFF && l.greenAt == FirstBit(k) ==> blt[o + 1] == s[k])
         && (l.redMask == 0xFF && l.redAt == FirstBit(k) ==> blt[o + 2] == s[k])
  }

  lemma ShownReads(mode: Mode, s: Bytes, blt: Bytes, o: nat)
    requires mode.Valid() && |s| == 4 && o + 4 <= |blt| && BltPixelAt(blt, o) == Shown(mode, s)
    ensures ReadsPixel(mode, s, blt, o)
  {
    hide ReadsBits, Get, Word;
    var l, v := mode.layout, Word(s[0], s[1], s[2], s[3]);
    ReadChannel(l.blueMask, l.blueAt, s, v, blt[o]);
    ReadChannel(l.greenMask, l.greenAt, s, v, blt[o + 1]);
    ReadChannel(l.redMask, l.redAt, s, v, blt[o + 2]);
    forall k | 0 <= k < 4
      ensures l.blueMask == 0xFF && l.blueAt == FirstBit(k) ==> blt[o] == s[k]
      ensures l.greenMask == 0xFF && l.greenAt == FirstBit(k) ==> blt[o + 1] == s[k]
      ensures l.redMask == 0xFF && l.redAt == FirstBit(k) ==> blt[o + 2] == s[k]
    {
      WholeByteRead(k, s, v, Get(v, 0xFF, FirstBit(k)));
    }
  }

  ghost predicate Reading(mode: Mode, call: BltCall, shadow: Bytes, was: Bytes) {
    && mode.Valid() && |shadow| == Off(mode.vres, mode.pitch)
    && call.op == VideoToBltBuffer && call.Accepted(mode) && call.Owes(mode, |was|)
    && call.Delta() >= call.width * BLT_PIXEL_SIZE
  }

  /** Column i, row j of the rectangle reads the screen pixel at (sx + i, sy + j). */
  ghost predicate ReadsAt(mode: Mode, call: BltCall, shadow: Bytes, now: Bytes, i: nat, j: nat)
    requires mode.Valid() && mode.pixelWidth == 4
  {
    var a, o := ByteAt(mode, call.sx + i, call.sy + j, 0), BltAt(call, call.dx + i, call.dy + j);
    a + 4 <= |shadow| && o + 4 <= |now| && ReadsPixel(mode, shadow[a..a + 4], now, o)
  }

  /** Byte a of the Blt buffer lies in row j of the rectangle. */
  predicate InBltRow(call: BltCall, j: nat, a: nat) {
    BltAt(call, call.dx, call.dy + j) <= a < BltAt(call, call.dx, call.dy + j) + call.width * 4
  }

  predicate Beside(call: BltCall, a: nat) {
    forall j | 0 <= j < call.height :: !InBltRow(call, j, a)
  }

  /** The whole Blt buffer, where a row of it holds at least the rectangle's width. */
  ghost predicate Reads(mode: Mode, call: BltCall, shadow: Bytes, was: Bytes, now: Bytes)
    requires Reading(mode, call, shadow, was) && |now| == |was|
  {
    && (forall i: nat, j: nat | i < call.width && j < call.height :: ReadsAt(mode, call, shadow, now, i, j))
    && forall a | 0 <= a < |was| && Beside(call, a) :: now[a] == was[a]
  }

  lemma PixelOfPlane(mode: Mode, m: Bytes, x: nat, y: nat)
    requires mode.Valid() && mode.pixelWidth == 4 && |m| == Off(mode.vres, mode.pitch) && x < mode.hres && y < mode.vres
    ensures var a := ByteAt(mode, x, y, 0);
            a + 4 <= |m| && m[a..a + 4] == PlaneOf(mode, Rows(m, mode.pitch, mode.vres))[y][x]
  {
    PlaneByte(mode, m, x, y, 0);
    PlaneByte(mode, m, x, y, 1);
    PlaneByte(mode, m, x, y, 2);
    PlaneByte(mode, m, x, y, 3);
    hide PlaneOf, Rows, Off;
    var a := ByteAt(mode, x, y, 0);
    assert ByteAt(mode, x, y, 3) == a + 3 && ByteAt(mode, x, y, 2) == a + 2 && ByteAt(mode, x, y, 1) == a + 1;
  }

  lemma PixelRead(mode: Mode, call: BltCall, shadow: Bytes, was: Bytes, now: Bytes, i: nat, j: nat)
    requires Reading(mode, call, shadow, was) && i < call.width && j < call.height
    requires Ready(mode, call, Rows(shadow, mode.pitch, mode.vres), was)
    requires now == BltAfter(mode, call, Rows(shadow, mode.pitch, mode.vres), was, call.height)
    ensures mode.pixelWidth == 4 && ReadsAt(mode, call, shadow, now, i, j)
  {
    hide Off, Rows, BltAfter, Shown, BltPixelAt, PlaneOf, ReadsPixel, ByteAt;
    var img := Rows(shadow, mode.pitch, mode.vres);
    BltInside(call, call.dx, call.dy, i, j);
    PixelOfPlane(mode, shadow, call.sx + i, call.sy + j);
    ReadReturnsPlane(mode, call, img, was, i, j);
    ShownReads(mode, PlaneOf(mode, img)[call.sy + j][call.sx + i], now, BltAt(call, call.dx + i, call.dy + j));
  }

  /** Reading the rectangle, byte by byte. */
  lemma ReadIsReads(mode: Mode, call: BltCall, shadow: Bytes, was: Bytes, now: Bytes)
    requires Reading(mode, call, shadow, was) && |now| == |was|
    requires Ready(mode, call, Rows(shadow, mode.pitch, mode.vres), was)
    requires now == BltAfter(mode, call, Rows(shadow, mode.pitch, mode.vres), was, call.height)
    ensures Reads(mode, call, shadow, was, now)
  {
    hide Reading, Rows, BltAfter, ReadsAt, Ready, Off, BltAt, BltCall.BltRowStart;
    ReadingMeans(mode, call, shadow, was);
    ReadyMeans(mode, call, Rows(shadow, mode.pitch, mode.vres), was);
    forall i: nat, j: nat | i < call.width && j < call.height ensures ReadsAt(mode, call, shadow, now, i, j) {
      PixelRead(mode, call, shadow, was, now, i, j);
    }
    forall a | 0 <= a < |was| && Beside(call, a) ensures now[a] == was[a] {
      forall j | 0 <= j < call.height
        ensures !(call.BltRowStart(call.dx, call.dy, j) <= a < call.BltRowStart(call.dx, call.dy, j) + call.width * BLT_PIXEL_SIZE)
      {
        BltInside(call, call.dx, call.dy, 0, j);
        assert !InBltRow(call, j, a);
      }
      BltElsewhere(mode, call, Rows(shadow, mode.pitch, mode.vres), was, call.height, a);
    }
  }

  lemma ReadingMeans(mode: Mode, call: BltCall, shadow: Bytes, was: Bytes)
    requires Reading(mode, call, shadow, was)
    ensures mode.Valid() && |shadow| == Off(mode.vres, mode.pitch) && call.op == VideoToBltBuffer && call.width > 0
  {
  }

  // ----- a call as a whole

  /** A drawing call that is accepted. */
  lemma StepDraws(mode: Mode, call: BltCall, shadow: Bytes, video: Bytes, blt: Bytes, shadow': Bytes, video': Bytes)
    requires Drawing(mode, call, shadow, shadow, blt) && Drawing(mode, call, shadow, video, blt)
    requires |shadow'| == |video'| == |shadow|
    requires Screen(Rows(shadow', mode.pitch, mode.vres), Rows(video', mode.pitch, mode.vres))
          == Step(mode, Screen(Rows(shadow, mode.pitch, mode.vres), Rows(video, mode.pitch, mode.vres)), call, blt)
    ensures DrawsAll(mode, call, shadow, shadow, blt, shadow') && DrawsAll(mode, call, shadow, video, blt, video')
  {
    hide DrawsAll, Rows, Store, NewRows, Off;
    DrawingMeans(mode, call, shadow, video, blt);
    DrawingMeans(mode, call, shadow, shadow, blt);
    assert Ready(mode, call, Rows(shadow, mode.pitch, mode.vres), blt);
    StoreDraws(mode, call, shadow, shadow, blt, shadow');
    StoreDraws(mode, call, shadow, video, blt, video');
  }

  /** A refused call, and a read, change neither buffer. */
  lemma StepIdle(mode: Mode, call: BltCall, shadow: Bytes, video: Bytes, blt: Bytes, shadow': Bytes, video': Bytes)
    requires mode.Valid() && |shadow'| == |video'| == |shadow| == |video| == Off(mode.vres, mode.pitch)
    requires !call.Accepted(mode) || (call.op == VideoToBltBuffer && call.Owes(mode, |blt|))
    requires ScreenFits(mode, Screen(Rows(shadow, mode.pitch, mode.vres), Rows(video, mode.pitch, mode.vres)))
    requires Screen(Rows(shadow', mode.pitch, mode.vres), Rows(video', mode.pitch, mode.vres))
          == Step(mode, Screen(Rows(shadow, mode.pitch, mode.vres), Rows(video, mode.pitch, mode.vres)), call, blt)
    ensures shadow' == shadow && video' == video
  {
    hide Rows, Store, NewRows, Off, Fits;
    RowsDetermine(shadow', shadow, mode.pitch, mode.vres);
    RowsDetermine(video', video, mode.pitch, mode.vres);
  }

  // ----- the clearing fill

  predicate AllZero(s: Bytes) {
    forall i :: 0 <= i < |s| ==> s[i] == 0
  }

  lemma BlackBytes(mode: Mode)
    requires mode.Valid()
    ensures AllZero(PixelBytes(mode, BltPixelAt(Black(), 0)))
  {
    var l := mode.layout;
    hide Put;
    PutNothing(l.redMask, l.redAt);
    PutNothing(l.greenMask, l.greenAt);
    PutNothing(l.blueMask, l.blueAt);
  }

  lemma {:induction false} RepeatZero(d: Bytes, n: nat)
    requires AllZero(d)
    ensures AllZero(Repeat(d, n))
    decreases n
  {
    if n > 0 {
      RepeatZero(d, n - 1);
    }
  }

  /** Byte a of a flat buffer is byte a % pitch of row a / pitch. */
  lemma RowOfByte(m: Bytes, pitch: nat, h: nat, a: nat)
    requires |m| == Off(h, pitch) && a < |m|
    ensures pitch > 0 && a / pitch < h && a % pitch < pitch
    ensures m[a] == Rows(m, pitch, h)[a / pitch][a % pitch]
  {
    assert pitch > 0;
    var y := a / pitch;
    assert a == Off(y, pitch) + a % pitch;
    if y >= h {
      OffStep(h, pitch);
      if y > h { OffMonotone(h, y, pitch); }
    }
    OffMonotone(y, h, pitch);
  }

  lemma ClearedRow(mode: Mode, target: Image, shadow: Image, y: nat)
    requires mode.Valid() && Fits(mode, target) && Fits(mode, shadow) && mode.hres < TWO64 && mode.vres < TWO64
    requires y < mode.vres && ClearCall(mode).Accepted(mode)
    ensures AllZero(Store(mode, ClearCall(mode), target, NewRows(mode, ClearCall(mode), shadow, Black()))[y])
  {
    hide Patch, PixelBytes, Repeat;
    var rows := NewRows(mode, ClearCall(mode), shadow, Black());
    var px := PixelBytes(mode, BltPixelAt(Black(), 0));
    assert rows[y] == NewRow(mode, ClearCall(mode), shadow, Black(), y) == Repeat(px, mode.hres);
    BlackBytes(mode);
    RepeatZero(px, mode.hres);
    PatchAll(target[y], rows[y]);
  }

  /** After the clearing fill every byte of the screen and of the shadow is zero. */
  lemma ClearIsBlack(mode: Mode, s: Screen, shadow: Bytes, video: Bytes)
    requires mode.Valid() && ScreenFits(mode, s) && mode.hres < TWO64 && mode.vres < TWO64
    requires |shadow| == |video| == Off(mode.vres, mode.pitch)
    requires Screen(Rows(shadow, mode.pitch, mode.vres), Rows(video, mode.pitch, mode.vres)) == Step(mode, s, ClearCall(mode), Black())
    ensures AllZero(shadow) && AllZero(video)
  {
    hide Rows, Store, NewRows, Off, AllZero;
    if shadow == [] {
      NoBytes(shadow, video);
    } else {
      RowOfByte(shadow, mode.pitch, mode.vres, 0);
      forall y | 0 <= y < mode.vres
        ensures AllZero(Rows(shadow, mode.pitch, mode.vres)[y]) && AllZero(Rows(video, mode.pitch, mode.vres)[y])
      {
        ClearedRow(mode, s.shadow, s.shadow, y);
        ClearedRow(mode, s.video, s.shadow, y);
      }
      ZeroRows(shadow, mode.pitch, mode.vres);
      ZeroRows(video, mode.pitch, mode.vres);
    }
  }

  lemma NoBytes(shadow: Bytes, video: Bytes)
    requires shadow == [] && |video| == 0
    ensures AllZero(shadow) && AllZero(video)
  {
  }

  lemma ZeroRows(m: Bytes, pitch: nat, h: nat)
    requires |m| == Off(h, pitch) && forall y :: 0 <= y < h ==> AllZero(Rows(m, pitch, h)[y])
    ensures AllZero(m)
  {
    hide Rows, Off;
    forall a | 0 <= a < |m| ensures m[a] == 0 {
      RowOfByte(m, pitch, h, a);
      assert AllZero(Rows(m, pitch, h)[a / pitch]);
    }
  }
}
