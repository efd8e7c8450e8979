/** The four block transfers of the frame buffer driver on images: which rows a call writes, what
    a whole run makes of shadow and screen, and when the two are equal.  A call is checked
    against the bounds of the mode first; module FrameBuffer refines the transfers in place, and
    module BltPlane reads pixels off their rows. */
module BltModel {
  import opened Slices
  import opened Raster
  import opened Pixels

  const TWO64: int := 0x1_0000_0000_0000_0000
  const BLT_PIXEL_SIZE: nat := 4

  /** FB_VIDEO_MODE_DATA; pixelWidth is BitsPerPixel / 8 and pitch BytesPerScanLine. */
  datatype Mode = Mode(hres: nat, vres: nat, pitch: nat, pixelWidth: nat, layout: Layout)
  {
    /** The scan line survived its conversion to UINT16. */
    predicate Valid() {
      1 <= pixelWidth <= 4 && layout.Valid() && pitch == hres * pixelWidth
    }
  }

  datatype BltOperation = VideoFill | VideoToBltBuffer | BufferToVideo | VideoToVideo | UnknownOperation

  datatype BltCall = BltCall(op: BltOperation, sx: nat, sy: nat, dx: nat, dy: nat, width: nat, height: nat, delta: nat)
  {
    /** The checks of FbGopVbeBltWorker: only the side that is video is compared with the screen. */
    predicate Accepted(mode: Mode) {
      && op != UnknownOperation && width != 0 && height != 0
      && if op == VideoToBltBuffer then sy + height <= mode.vres && sx + width <= mode.hres
         else dy + height <= mode.vres && dx + width <= mode.hres
    }

    /** Bytes in a row of the Blt buffer. */
    function Delta(): nat {
      if delta == 0 then width * BLT_PIXEL_SIZE else delta
    }

    /** What an accepted call owes the driver: sums that do not wrap, a source on the screen, a
        Blt buffer that covers the pixels it names, and 32 bits per pixel when pixels are read. */
    predicate Owes(mode: Mode, bltLength: nat) {
      && sx + width < TWO64 && sy + height < TWO64 && dx + width < TWO64 && dy + height < TWO64
      && match op
         case VideoFill => BLT_PIXEL_SIZE <= bltLength
         case VideoToBltBuffer =>
           mode.pixelWidth == 4 && BltRowEnd(dx, dy) <= bltLength
         case BufferToVideo => BltRowEnd(sx, sy) <= bltLength
         case VideoToVideo => sy + height <= mode.vres && sx + width <= mode.hres
         case UnknownOperation => true
    }

    /** Start of row i of the rectangle whose corner in the Blt buffer is (x, y). */
    function BltRowStart(x: nat, y: nat, i: nat): nat {
      Off(y + i, Delta()) + x * BLT_PIXEL_SIZE
    }

    /** End of the last row of the rectangle whose corner in the Blt buffer is (x, y). */
    function BltRowEnd(x: nat, y: nat): nat {
      Off(if height == 0 then y else y + height - 1, Delta()) + (x + width) * BLT_PIXEL_SIZE
    }
  }

  /** Bytes occupied by n pixels of a scan line. */
  function Wide(mode: Mode, n: nat): nat {
    n * mode.pixelWidth
  }

  lemma WideAdds(mode: Mode, a: nat, b: nat)
    ensures Wide(mode, a + b) == Wide(mode, a) + Wide(mode, b)
    ensures Wide(mode, 1) == mode.pixelWidth
  {
  }

  // ----- pixels in the two kinds of memory

  function BltPixelAt(blt: Bytes, off: nat): BltPixel
    requires off + BLT_PIXEL_SIZE <= |blt|
  {
    BltPixel(blt[off], blt[off + 1], blt[off + 2], blt[off + 3])
  }

  /** The bytes a pixel occupies on screen. */
  function PixelBytes(mode: Mode, px: BltPixel): (s: Bytes)
    requires mode.Valid()
    ensures |s| == mode.pixelWidth
  {
    WordBytes(Pack(mode.layout, px))[..mode.pixelWidth]
  }

  /** k packed pixels from the Blt buffer at off. */
  function PackedRow(mode: Mode, blt: Bytes, off: nat, k: nat): (s: Bytes)
    requires mode.Valid() && off + k * BLT_PIXEL_SIZE <= |blt|
    ensures |s| == Wide(mode, k)
  {
    if k == 0 then []
    else
      WideAdds(mode, k - 1, 1);
      PackedRow(mode, blt, off, k - 1) + PixelBytes(mode, BltPixelAt(blt, off + (k - 1) * BLT_PIXEL_SIZE))
  }

  /** A pixel as VideoToBltBuffer stores it, from the four screen bytes at offset o. */
  function BltBytes(mode: Mode, row: Bytes, o: nat): (s: Bytes)
    requires mode.Valid() && o + 4 <= |row|
    ensures |s| == BLT_PIXEL_SIZE
  {
    var px := Unpack(mode.layout, Word(row[o], row[o + 1], row[o + 2], row[o + 3]));
    [px.blue, px.green, px.red, px.reserved]
  }

  /** k unpacked pixels of a screen row, starting at pixel x. */
  function UnpackedRow(mode: Mode, row: Bytes, x: nat, k: nat): (s: Bytes)
    requires mode.Valid() && mode.pixelWidth == 4 && (x + k) * 4 <= |row|
    ensures |s| == k * BLT_PIXEL_SIZE
  {
    if k == 0 then [] else UnpackedRow(mode, row, x, k - 1) + BltBytes(mode, row, (x + k - 1) * 4)
  }

  lemma UnpackOneMore(mode: Mode, row: Bytes, x: nat, k: nat)
    requires mode.Valid() && mode.pixelWidth == 4 && (x + k + 1) * 4 <= |row|
    ensures UnpackedRow(mode, row, x, k + 1) == UnpackedRow(mode, row, x, k) + BltBytes(mode, row, (x + k) * 4)
  {
  }

  // ----- what a call writes

  ghost predicate Fits(mode: Mode, img: Image) {
    |img| == mode.vres && Uniform(img, mode.pitch)
  }

  ghost predicate Ready(mode: Mode, call: BltCall, img: Image, blt: Bytes) {
    mode.Valid() && Fits(mode, img) && call.Accepted(mode) && call.Owes(mode, |blt|)
  }

  lemma ColumnsFit(mode: Mode, x: nat, width: nat)
    requires mode.Valid() && x + width <= mode.hres
    ensures Wide(mode, x) + Wide(mode, width) == Wide(mode, x + width) <= mode.pitch
  {
    WideAdds(mode, x, width);
    WideAdds(mode, x + width, mode.hres - x - width);
  }

  /** Row i of the rectangle a BufferToVideo, VideoFill or VideoToVideo call writes. */
  ghost function NewRow(mode: Mode, call: BltCall, img: Image, blt: Bytes, i: nat): (row: Bytes)
    requires Ready(mode, call, img, blt) && call.op != VideoToBltBuffer && i < call.height
    ensures |row| == Wide(mode, call.width)
  {
    match call.op
    case VideoFill => Repeat(PixelBytes(mode, BltPixelAt(blt, 0)), call.width)
    case BufferToVideo =>
      BltRowInside(call, call.sx, call.sy, i);
      PackedRow(mode, blt, call.BltRowStart(call.sx, call.sy, i), call.width)
    case VideoToVideo =>
      ColumnsFit(mode, call.sx, call.width);
      img[call.sy + i][Wide(mode, call.sx)..Wide(mode, call.sx) + Wide(mode, call.width)]
  }

  /** Row i of the rectangle at (x, y) lies in the Blt buffer. */
  lemma BltRowInside(call: BltCall, x: nat, y: nat, i: nat)
    requires i < call.height
    ensures call.BltRowStart(x, y, i) + call.width * BLT_PIXEL_SIZE <= call.BltRowEnd(x, y)
  {
    if i < call.height - 1 {
      OffMonotone(y + i, y + call.height - 1, call.Delta());
    }
  }

  ghost function NewRows(mode: Mode, call: BltCall, img: Image, blt: Bytes): (rows: Image)
    requires Ready(mode, call, img, blt) && call.op != VideoToBltBuffer
    ensures |rows| == call.height && Uniform(rows, Wide(mode, call.width))
    ensures forall i :: 0 <= i < call.height ==> rows[i] == NewRow(mode, call, img, blt, i)
  {
    seq(call.height, i requires 0 <= i < call.height => NewRow(mode, call, img, blt, i))
  }

  /** Storing the call's rows in an image: the shadow it reads from, or the screen. */
  ghost function Store(mode: Mode, call: BltCall, target: Image, rows: Image): (r: Image)
    requires mode.Valid() && Fits(mode, target) && call.Accepted(mode) && call.op != VideoToBltBuffer
    requires |rows| == call.height && Uniform(rows, Wide(mode, call.width))
    ensures Fits(mode, r)
  {
    ColumnsFit(mode, call.dx, call.width);
    WriteRect(target, mode.pitch, call.dy, Wide(mode, call.dx), Wide(mode, call.width), rows)
  }

  /** The Blt buffer once k rows of a VideoToBltBuffer call have been stored. */
  ghost function BltAfter(mode: Mode, call: BltCall, img: Image, blt: Bytes, k: nat): (r: Bytes)
    requires Ready(mode, call, img, blt) && call.op == VideoToBltBuffer && k <= call.height
    ensures |r| == |blt|
  {
    if k == 0 then blt
    else
      BltRowInside(call, call.dx, call.dy, k - 1);
      ColumnsFit(mode, call.sx, call.width);
      Patch(BltAfter(mode, call, img, blt, k - 1),
            call.BltRowStart(call.dx, call.dy, k - 1),
            UnpackedRow(mode, img[call.sy + k - 1], call.sx, call.width))
  }

  lemma BltAfterNone(mode: Mode, call: BltCall, img: Image, blt: Bytes)
    requires Ready(mode, call, img, blt) && call.op == VideoToBltBuffer
    ensures BltAfter(mode, call, img, blt, 0) == blt
  {
  }

  /** One more row of a VideoToBltBuffer call. */
  lemma BltAfterStep(mode: Mode, call: BltCall, img: Image, blt: Bytes, k: nat)
    requires Ready(mode, call, img, blt) && call.op == VideoToBltBuffer && k < call.height
    ensures call.BltRowStart(call.dx, call.dy, k) + call.width * BLT_PIXEL_SIZE <= |blt|
    ensures (call.sx + call.width) * 4 <= |img[call.sy + k]|
    ensures BltAfter(mode, call, img, blt, k + 1)
         == Patch(BltAfter(mode, call, img, blt, k), call.BltRowStart(call.dx, call.dy, k),
                  UnpackedRow(mode, img[call.sy + k], call.sx, call.width))
  {
    hide UnpackedRow, Patch, Off;
    BltRowInside(call, call.dx, call.dy, k);
    ColumnsFit(mode, call.sx, call.width);
  }

  // ----- runs: shadow and screen side by side

  /** The driver's shadow and the physical frame buffer. */
  datatype Screen = Screen(shadow: Image, video: Image)

  ghost predicate ScreenFits(mode: Mode, s: Screen) {
    Fits(mode, s.shadow) && Fits(mode, s.video)
  }

  /** One call with the Blt buffer it is given; refused calls and reads change neither image. */
  ghost function Step(mode: Mode, s: Screen, call: BltCall, blt: Bytes): (r: Screen)
    requires mode.Valid() && ScreenFits(mode, s)
    requires call.Accepted(mode) ==> call.Owes(mode, |blt|)
    ensures ScreenFits(mode, r)
  {
    if !call.Accepted(mode) || call.op == VideoToBltBuffer then s
    else
      var rows := NewRows(mode, call, s.shadow, blt);
      Screen(Store(mode, call, s.shadow, rows), Store(mode, call, s.video, rows))
  }

  type Calls = seq<(BltCall, Bytes)>

  predicate CallsOwe(mode: Mode, calls: Calls) {
    forall c :: c in calls && c.0.Accepted(mode) ==> c.0.Owes(mode, |c.1|)
  }

  ghost function Run(mode: Mode, s: Screen, calls: Calls): (r: Screen)
    requires mode.Valid() && ScreenFits(mode, s) && CallsOwe(mode, calls)
    ensures ScreenFits(mode, r)
  {
    if calls == [] then s
    else
      var last := calls[|calls| - 1];
      Step(mode, Run(mode, s, calls[..|calls| - 1]), last.0, last.1)
  }

  /** The full-screen fill with black that SetMode performs. */
  function ClearCall(mode: Mode): BltCall {
    BltCall(VideoFill, 0, 0, 0, 0, mode.hres, mode.vres, 0)
  }

  function Black(): Bytes { [0, 0, 0, 0] }

  /** After the clearing fill the screen equals the shadow, whatever either held before. */
  lemma ClearMakesCoherent(mode: Mode, s: Screen)
    requires mode.Valid() && ScreenFits(mode, s) && mode.hres < TWO64 && mode.vres < TWO64
    ensures var r := Step(mode, s, ClearCall(mode), Black()); r.video == r.shadow
  {
    hide NewRow, Patch;
    var r := Step(mode, s, ClearCall(mode), Black());
    if mode.hres > 0 && mode.vres > 0 {
      var rows := NewRows(mode, ClearCall(mode), s.shadow, Black());
      forall k | 0 <= k < mode.vres
        ensures r.shadow[k] == rows[k] == r.video[k]
      {
        PatchAll(s.shadow[k], rows[k]);
        PatchAll(s.video[k], rows[k]);
      }
    } else if mode.vres > 0 {
      assert forall k :: 0 <= k < mode.vres ==> s.shadow[k] == [] == s.video[k];
    }
  }

  lemma PatchAll(s: Bytes, d: Bytes)
    requires |s| == |d|
    ensures Patch(s, 0, d) == d
  {
  }

  /** Every call keeps a coherent screen coherent. */
  lemma StepKeepsCoherent(mode: Mode, s: Screen, call: BltCall, blt: Bytes)
    requires mode.Valid() && ScreenFits(mode, s) && s.video == s.shadow
    requires call.Accepted(mode) ==> call.Owes(mode, |blt|)
    ensures var r := Step(mode, s, call, blt); r.video == r.shadow
  {
  }

  /** From SetMode on, over any sequence of transfers, the physical frame buffer equals the shadow
      on every byte. */
  lemma {:induction false} ScreenShowsShadow(mode: Mode, s: Screen, calls: Calls)
    requires mode.Valid() && ScreenFits(mode, s) && mode.hres < TWO64 && mode.vres < TWO64
    requires CallsOwe(mode, calls)
    ensures var r := Run(mode, Step(mode, s, ClearCall(mode), Black()), calls); r.video == r.shadow
    decreases |calls|
  {
    hide Step;
    var s0 := Step(mode, s, ClearCall(mode), Black());
    if calls == [] {
      ClearMakesCoherent(mode, s);
    } else {
      ScreenShowsShadow(mode, s, calls[..|calls| - 1]);
      var last := calls[|calls| - 1];
      assert last in calls;
      StepKeepsCoherent(mode, Run(mode, s0, calls[..|calls| - 1]), last.0, last.1);
    }
  }
}
