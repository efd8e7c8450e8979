/** Reading the screen back: VideoToBltBuffer returns the plane's pixels, and a BufferToVideo
    followed by a VideoToBltBuffer of the same rectangle returns every pixel under its masks.
    Reading takes four bytes a pixel; the rows of the Blt buffer are as long as its stride
    says. */
module BltReadback {
  import opened Slices
  import opened Raster
  import opened Pixels
  import opened BltModel
  import opened BltPlane

  /** A pixel as the Blt buffer receives it from four screen bytes. */
  function Shown(mode: Mode, s: Bytes): BltPixel
    requires mode.Valid() && |s| == 4
  {
    Unpack(mode.layout, Word(s[0], s[1], s[2], s[3]))
  }

  lemma {:induction false} UnpackedPixel(mode: Mode, row: Bytes, x: nat, n: nat, i: nat)
    requires mode.Valid() && mode.pixelWidth == 4 && |row| == mode.pitch && x + n <= mode.hres && i < n
    ensures (x + n) * 4 <= |row|
    ensures UnpackedRow(mode, row, x, n)[i * 4..i * 4 + 4] == BltBytes(mode, row, (x + i) * 4)
    decreases n
  {
    hide BltBytes;
    if i < n - 1 {
      UnpackedPixel(mode, row, x, n - 1, i);
      assert UnpackedRow(mode, row, x, n)[i * 4..i * 4 + 4] == UnpackedRow(mode, row, x, n - 1)[i * 4..i * 4 + 4];
    }
  }

  /** Rows of a Blt buffer do not overlap when a row holds at least the rectangle's width. */
  lemma RowsApart(call: BltCall, x: nat, y: nat, i: nat, k: nat)
    requires i < k && call.Delta() >= call.width * BLT_PIXEL_SIZE
    ensures call.BltRowStart(x, y, i) + call.width * BLT_PIXEL_SIZE <= call.BltRowStart(x, y, k)
  {
    OffMonotone(y + i, y + k, call.Delta());
  }

  /** Row i of the call's rectangle, as it stands in a Blt buffer, is the unpacked source row. */
  ghost predicate RowRead(mode: Mode, call: BltCall, img: Image, after: Bytes, i: nat)
    requires Ready(mode, call, img, after) && call.op == VideoToBltBuffer && i < call.height
  {
    var o := call.BltRowStart(call.dx, call.dy, i);
    BltRowInside(call, call.dx, call.dy, i);
    ColumnsFit(mode, call.sx, call.width);
    after[o..o + call.width * BLT_PIXEL_SIZE] == UnpackedRow(mode, img[call.sy + i], call.sx, call.width)
  }

  lemma RowReadStep(mode: Mode, call: BltCall, img: Image, before: Bytes, after: Bytes, k: nat, i: nat)
    requires Ready(mode, call, img, before) && call.op == VideoToBltBuffer && i <= k < call.height
    requires call.Delta() >= call.width * BLT_PIXEL_SIZE && |after| == |before|
    requires call.BltRowStart(call.dx, call.dy, k) + call.width * BLT_PIXEL_SIZE <= |before|
    requires (call.sx + call.width) * 4 <= |img[call.sy + k]|
    requires after == Patch(before, call.BltRowStart(call.dx, call.dy, k),
                            UnpackedRow(mode, img[call.sy + k], call.sx, call.width))
    requires i < k ==> RowRead(mode, call, img, before, i)
    ensures RowRead(mode, call, img, after, i)
  {
    hide UnpackedRow, Patch, Off;
    var a, b, n := call.BltRowStart(call.dx, call.dy, k), call.BltRowStart(call.dx, call.dy, i), call.width * BLT_PIXEL_SIZE;
    BltRowInside(call, call.dx, call.dy, i);
    if i < k {
      RowsApart(call, call.dx, call.dy, i, k);
    }
    PatchedSlice(before, a, UnpackedRow(mode, img[call.sy + k], call.sx, call.width), b, n);
  }

  lemma {:induction false} BltRowRead(mode: Mode, call: BltCall, img: Image, blt: Bytes, k: nat, i: nat)
    requires Ready(mode, call, img, blt) && call.op == VideoToBltBuffer && i < k <= call.height
    requires call.Delta() >= call.width * BLT_PIXEL_SIZE
    ensures RowRead(mode, call, img, BltAfter(mode, call, img, blt, k), i)
    decreases k
  {
    hide RowRead, BltAfter, Off, UnpackedRow, Patch;
    BltAfterStep(mode, call, img, blt, k - 1);
    if i < k - 1 {
      BltRowRead(mode, call, img, blt, k - 1, i);
    }
    RowReadStep(mode, call, img, BltAfter(mode, call, img, blt, k - 1), BltAfter(mode, call, img, blt, k), k - 1, i);
  }

  /** Byte a of the Blt buffer lies in no row of the rectangle. */
  predicate OutsideRows(call: BltCall, a: nat) {
    forall j :: 0 <= j < call.height ==>
      !(call.BltRowStart(call.dx, call.dy, j) <= a < call.BltRowStart(call.dx, call.dy, j) + call.width * BLT_PIXEL_SIZE)
  }

  lemma PatchedElsewhere(s: Bytes, o: nat, d: Bytes, a: nat)
    requires o + |d| <= |s| && a < |s| && !(o <= a < o + |d|)
    ensures Patch(s, o, d)[a] == s[a]
  {
  }

  lemma ReadyMeans(mode: Mode, call: BltCall, img: Image, blt: Bytes)
    requires Ready(mode, call, img, blt) && call.op == VideoToBltBuffer
    ensures mode.Valid() && mode.pixelWidth == 4 && call.sy + call.height <= |img|
  {
  }

  /** Bytes of the Blt buffer outside the rectangle's rows stay as they were. */
  lemma {:induction false} BltElsewhere(mode: Mode, call: BltCall, img: Image, blt: Bytes, k: nat, a: nat)
    requires Ready(mode, call, img, blt) && call.op == VideoToBltBuffer && k <= call.height && a < |blt|
    requires OutsideRows(call, a)
    ensures BltAfter(mode, call, img, blt, k)[a] == blt[a]
    decreases k
  {
    hide UnpackedRow, Off, BltAfter, Patch, Ready;
    if k == 0 {
      BltAfterNone(mode, call, img, blt);
    } else {
      ReadyMeans(mode, call, img, blt);
      BltElsewhere(mode, call, img, blt, k - 1, a);
      BltAfterStep(mode, call, img, blt, k - 1);
      var o := call.BltRowStart(call.dx, call.dy, k - 1);
      assert !(o <= a < o + call.width * BLT_PIXEL_SIZE);
      PatchedElsewhere(BltAfter(mode, call, img, blt, k - 1), o, UnpackedRow(mode, img[call.sy + k - 1], call.sx, call.width), a);
    }
  }

  lemma FourBytes(s: Bytes, o: nat, d: Bytes)
    requires o + 4 <= |s| && |d| == 4 && s[o..o + 4] == d
    ensures BltPixelAt(s, o) == BltPixel(d[0], d[1], d[2], d[3])
  {
    var e := s[o..o + 4];
    assert e[0] == s[o] && e[1] == s[o + 1] && e[2] == s[o + 2] && e[3] == s[o + 3];
  }

  /** Column i, row j of the Blt rectangle receives the pixel the plane shows at the source. */
  lemma ReadReturnsPlane(mode: Mode, call: BltCall, img: Image, blt: Bytes, i: nat, j: nat)
    requires Ready(mode, call, img, blt) && call.op == VideoToBltBuffer && i < call.width && j < call.height
    requires call.Delta() >= call.width * BLT_PIXEL_SIZE
    ensures var o := call.BltRowStart(call.dx, call.dy, j) + i * BLT_PIXEL_SIZE;
            && o + BLT_PIXEL_SIZE <= |blt|
            && BltPixelAt(BltAfter(mode, call, img, blt, call.height), o)
               == Shown(mode, PlaneOf(mode, img)[call.sy + j][call.sx + i])
  {
    hide Off, UnpackedRow, BltAfter, Shown, BltPixelAt, BltBytes;
    BltRowRead(mode, call, img, blt, call.height, j);
    BltRowInside(call, call.dx, call.dy, j);
    ColumnsFit(mode, call.sx, call.width);
    var row := img[call.sy + j];
    UnpackedPixel(mode, row, call.sx, call.width, i);
    var o := call.BltRowStart(call.dx, call.dy, j);
    var after := BltAfter(mode, call, img, blt, call.height);
    SliceOfSlice(after, o, call.width * BLT_PIXEL_SIZE, i * 4, 4);
    FourBytes(after, o + i * 4, BltBytes(mode, row, (call.sx + i) * 4));
    PixelAsBytes(mode, row, call.sx + i);
    assert PlaneOf(mode, img)[call.sy + j] == RowPixels(mode, row);
  }

  lemma PixelAsBytes(mode: Mode, row: Bytes, x: nat)
    requires mode.Valid() && mode.pixelWidth == 4 && |row| == mode.pitch && x < mode.hres
    ensures x * 4 + 4 <= |row|
    ensures var px, d := Shown(mode, PixelIn(mode, row, x)), BltBytes(mode, row, x * 4);
            px == BltPixel(d[0], d[1], d[2], d[3])
  {
    hide Unpack, Word;
    var s := PixelIn(mode, row, x);
    assert s == row[x * 4..x * 4 + 4];
  }

  /** The four bytes of a stored pixel show the pixel under its masks. */
  lemma StoredPixelShows(mode: Mode, px: BltPixel)
    requires mode.Valid() && mode.pixelWidth == 4 && Separate(mode.layout)
    ensures Shown(mode, PixelBytes(mode, px)) == Masked(mode.layout, px)
  {
    hide Pack, Unpack, Word, WordBytes, Separate, Masked;
    var v := Pack(mode.layout, px);
    assert PixelBytes(mode, px) == WordBytes(v);
    WordRoundTrip(v);
    SeparateRoundTrips(mode.layout, px);
  }

  /** The plane shows a written pixel where the call put it. */
  lemma WrittenPixel(mode: Mode, s: Screen, w: BltCall, blt: Bytes, i: nat, j: nat)
    requires mode.Valid() && ScreenFits(mode, s)
    requires w.op == BufferToVideo && w.Accepted(mode) && w.Owes(mode, |blt|) && i < w.width && j < w.height
    ensures w.BltRowStart(w.sx, w.sy, j) + i * BLT_PIXEL_SIZE + BLT_PIXEL_SIZE <= |blt|
    ensures PlaneOf(mode, Step(mode, s, w, blt).shadow)[w.dy + j][w.dx + i]
         == PixelBytes(mode, BltPixelAt(blt, w.BltRowStart(w.sx, w.sy, j) + i * BLT_PIXEL_SIZE))
  {
    hide Off, PlaneOf, Store, NewRows, PixelBytes, BltPixelAt;
    StoreRefines(mode, w, s.shadow, s.shadow, blt);
    var p := PlaneOf(mode, s.shadow);
    assert PlaneStep(mode, p, w, blt)[w.dy + j] == PlaneRow(mode, w, p, blt, w.dy + j);
    BltRowInside(w, w.sx, w.sy, j);
  }

  /** Write a rectangle from one Blt buffer, read it back into another, with any row strides that
      keep the rows read apart: each channel comes back ANDed with its mask, Reserved is zero. */
  lemma WriteThenRead(mode: Mode, s: Screen, w: BltCall, blt: Bytes, r: BltCall, out: Bytes, i: nat, j: nat)
    requires mode.Valid() && mode.pixelWidth == 4 && Separate(mode.layout) && ScreenFits(mode, s)
    requires w.op == BufferToVideo && w.Accepted(mode) && w.Owes(mode, |blt|)
    requires r.op == VideoToBltBuffer && r.Accepted(mode) && r.Owes(mode, |out|)
    requires r.sx == w.dx && r.sy == w.dy && r.width == w.width && r.height == w.height
    requires r.Delta() >= r.width * BLT_PIXEL_SIZE && i < w.width && j < w.height
    ensures var a, b := w.BltRowStart(w.sx, w.sy, j) + i * BLT_PIXEL_SIZE, r.BltRowStart(r.dx, r.dy, j) + i * BLT_PIXEL_SIZE;
            && a + BLT_PIXEL_SIZE <= |blt| && b + BLT_PIXEL_SIZE <= |out|
            && BltPixelAt(BltAfter(mode, r, Step(mode, s, w, blt).shadow, out, r.height), b)
               == Masked(mode.layout, BltPixelAt(blt, a))
  {
    hide Off, BltAfter, PlaneOf, Step, Shown, PixelBytes, BltPixelAt, Masked, Separate;
    WrittenPixel(mode, s, w, blt, i, j);
    ReadReturnsPlane(mode, r, Step(mode, s, w, blt).shadow, out, i, j);
    StoredPixelShows(mode, BltPixelAt(blt, w.BltRowStart(w.sx, w.sy, j) + i * BLT_PIXEL_SIZE));
  }
}
