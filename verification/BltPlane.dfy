/** The driver refines a plain plane of pixels: a write changes exactly the destination rectangle,
    a move copies the source rectangle as it was, and the clearing fill makes every pixel black. */
module BltPlane {
  import opened Slices
  import opened Raster
  import opened Pixels
  import opened BltModel

  type Plane = seq<seq<Bytes>>

  ghost predicate PlaneFits(mode: Mode, p: Plane) {
    |p| == mode.vres && forall y :: 0 <= y < |p| ==> |p[y]| == mode.hres
  }

  /** The bytes of pixel x in a row. */
  function PixelIn(mode: Mode, row: Bytes, x: nat): (s: Bytes)
    requires mode.Valid() && |row| == mode.pitch && x < mode.hres
    ensures |s| == mode.pixelWidth
  {
    ColumnsFit(mode, x, 1);
    WideAdds(mode, x, 1);
    row[Wide(mode, x)..Wide(mode, x) + mode.pixelWidth]
  }

  ghost function RowPixels(mode: Mode, row: Bytes): (r: seq<Bytes>)
    requires mode.Valid() && |row| == mode.pitch
    ensures |r| == mode.hres
    ensures forall x :: 0 <= x < mode.hres ==> r[x] == PixelIn(mode, row, x)
  {
    seq(mode.hres, x requires 0 <= x < mode.hres => PixelIn(mode, row, x))
  }

  ghost function PlaneOf(mode: Mode, img: Image): (p: Plane)
    requires mode.Valid() && Fits(mode, img)
    ensures PlaneFits(mode, p)
    ensures forall y :: 0 <= y < mode.vres ==> p[y] == RowPixels(mode, img[y])
  {
    seq(mode.vres, y requires 0 <= y < mode.vres => RowPixels(mode, img[y]))
  }

  // ----- the plain pixel array

  predicate InRect(call: BltCall, x: nat, y: nat) {
    call.dx <= x < call.dx + call.width && call.dy <= y < call.dy + call.height
  }

  /** The pixel a writing call puts at column i, row j of its rectangle. */
  ghost function NewPixel(mode: Mode, call: BltCall, p: Plane, blt: Bytes, i: nat, j: nat): Bytes
    requires mode.Valid() && PlaneFits(mode, p) && call.Accepted(mode) && call.Owes(mode, |blt|)
    requires call.op != VideoToBltBuffer && i < call.width && j < call.height
  {
    match call.op
    case VideoFill => PixelBytes(mode, BltPixelAt(blt, 0))
    case BufferToVideo =>
      BltRowInside(call, call.sx, call.sy, j);
      PixelBytes(mode, BltPixelAt(blt, call.BltRowStart(call.sx, call.sy, j) + i * BLT_PIXEL_SIZE))
    case VideoToVideo => p[call.sy + j][call.sx + i]
  }

  ghost function PlaneRow(mode: Mode, call: BltCall, p: Plane, blt: Bytes, y: nat): (r: seq<Bytes>)
    requires mode.Valid() && PlaneFits(mode, p) && call.Accepted(mode) && call.Owes(mode, |blt|)
    requires call.op != VideoToBltBuffer && y < mode.vres
    ensures |r| == mode.hres
    ensures forall x :: 0 <= x < mode.hres ==>
      r[x] == if InRect(call, x, y) then NewPixel(mode, call, p, blt, x - call.dx, y - call.dy) else p[y][x]
  {
    seq(mode.hres, x requires 0 <= x < mode.hres =>
          if InRect(call, x, y) then NewPixel(mode, call, p, blt, x - call.dx, y - call.dy) else p[y][x])
  }

  /** One call on the plane: the destination rectangle changes, nothing else does. */
  ghost function PlaneStep(mode: Mode, p: Plane, call: BltCall, blt: Bytes): (r: Plane)
    requires mode.Valid() && PlaneFits(mode, p)
    requires call.Accepted(mode) ==> call.Owes(mode, |blt|)
    ensures PlaneFits(mode, r)
  {
    if !call.Accepted(mode) || call.op == VideoToBltBuffer then p
    else seq(mode.vres, y requires 0 <= y < mode.vres => PlaneRow(mode, call, p, blt, y))
  }

  ghost function PlaneRun(mode: Mode, p: Plane, calls: Calls): (r: Plane)
    requires mode.Valid() && PlaneFits(mode, p) && CallsOwe(mode, calls)
    ensures PlaneFits(mode, r)
  {
    if calls == [] then p
    else
      var last := calls[|calls| - 1];
      PlaneStep(mode, PlaneRun(mode, p, calls[..|calls| - 1]), last.0, last.1)
  }

  // ----- rows refine rows of pixels

  lemma {:induction false} RepeatSlice(mode: Mode, d: Bytes, n: nat, i: nat)
    requires |d| == mode.pixelWidth && i < n
    ensures Wide(mode, i) + mode.pixelWidth <= Wide(mode, n) == |Repeat(d, n)|
    ensures Repeat(d, n)[Wide(mode, i)..Wide(mode, i) + mode.pixelWidth] == d
    decreases n
  {
    WideAdds(mode, n - 1, 1);
    assert |Repeat(d, n)| == Wide(mode, n) && |Repeat(d, n - 1)| == Wide(mode, n - 1);
    if i < n - 1 {
      RepeatSlice(mode, d, n - 1, i);
      var a, b := Wide(mode, i), Wide(mode, i) + mode.pixelWidth;
      assert Repeat(d, n)[a..b] == Repeat(d, n - 1)[a..b];
    }
  }

  lemma {:induction false} PackedSlice(mode: Mode, blt: Bytes, off: nat, n: nat, i: nat)
    requires mode.Valid() && off + n * BLT_PIXEL_SIZE <= |blt| && i < n
    ensures Wide(mode, i) + mode.pixelWidth <= Wide(mode, n)
    ensures PackedRow(mode, blt, off, n)[Wide(mode, i)..Wide(mode, i) + mode.pixelWidth]
         == PixelBytes(mode, BltPixelAt(blt, off + i * BLT_PIXEL_SIZE))
    decreases n
  {
    hide PixelBytes, BltPixelAt, Wide;
    WideAdds(mode, n - 1, 1);
    if i < n - 1 {
      PackedSlice(mode, blt, off, n - 1, i);
      var a, b := Wide(mode, i), Wide(mode, i) + mode.pixelWidth;
      assert PackedRow(mode, blt, off, n)[a..b] == PackedRow(mode, blt, off, n - 1)[a..b];
    }
  }

  /** Patching whole pixels into a row replaces those pixels. */
  lemma PatchedPixel(mode: Mode, row: Bytes, dx: nat, width: nat, d: Bytes, x: nat)
    requires mode.Valid() && |row| == mode.pitch && |d| == Wide(mode, width) && dx + width <= mode.hres
    requires x < mode.hres
    ensures Wide(mode, dx) + |d| <= |row|
    ensures dx <= x < dx + width ==> Wide(mode, x - dx) + mode.pixelWidth <= |d|
    ensures PixelIn(mode, Patch(row, Wide(mode, dx), d), x)
         == if dx <= x < dx + width then d[Wide(mode, x - dx)..Wide(mode, x - dx) + mode.pixelWidth]
            else PixelIn(mode, row, x)
  {
    hide Patch, Wide;
    ColumnsFit(mode, dx, width);
    ColumnsFit(mode, x, 1);
    WideAdds(mode, x, 1);
    if x < dx {
      WideAdds(mode, x + 1, dx - x - 1);
    } else {
      WideAdds(mode, dx, x - dx);
      if x < dx + width {
        WideAdds(mode, x - dx, 1);
        WideAdds(mode, x - dx + 1, width - (x - dx) - 1);
      } else {
        WideAdds(mode, width, x - dx - width);
      }
    }
    PatchedSlice(row, Wide(mode, dx), d, Wide(mode, x), mode.pixelWidth);
  }

  lemma PatchedSlice(row: Bytes, a: nat, d: Bytes, b: nat, n: nat)
    requires a + |d| <= |row| && b + n <= |row|
    requires b + n <= a || a + |d| <= b || (a <= b && b + n <= a + |d|)
    ensures b + n <= a || a + |d| <= b ==> Patch(row, a, d)[b..b + n] == row[b..b + n]
    ensures a <= b && b + n <= a + |d| ==> Patch(row, a, d)[b..b + n] == d[b - a..b - a + n]
  {
    if b + n <= a || a + |d| <= b {
      assert Patch(row, a, d)[b..b + n] == row[b..b + n];
    }
    if a <= b && b + n <= a + |d| {
      assert Patch(row, a, d)[b..b + n] == d[b - a..b - a + n];
    }
  }

  /** Pixel i of a written row is the plane's new pixel. */
  lemma NewRowPixel(mode: Mode, call: BltCall, img: Image, blt: Bytes, i: nat, j: nat)
    requires Ready(mode, call, img, blt) && call.op != VideoToBltBuffer && i < call.width && j < call.height
    ensures Wide(mode, i) + mode.pixelWidth <= Wide(mode, call.width)
    ensures NewRow(mode, call, img, blt, j)[Wide(mode, i)..Wide(mode, i) + mode.pixelWidth]
         == NewPixel(mode, call, PlaneOf(mode, img), blt, i, j)
  {
    hide PixelBytes, BltPixelAt, Off, PackedRow, Repeat, PlaneOf, Wide;
    WideAdds(mode, i, 1);
    WideAdds(mode, i + 1, call.width - i - 1);
    match call.op
    case VideoFill => RepeatSlice(mode, PixelBytes(mode, BltPixelAt(blt, 0)), call.width, i);
    case BufferToVideo =>
      BltRowInside(call, call.sx, call.sy, j);
      PackedSlice(mode, blt, call.BltRowStart(call.sx, call.sy, j), call.width, i);
    case VideoToVideo =>
      MovedPixel(mode, img[call.sy + j], call.sx, call.width, i);
      assert PlaneOf(mode, img)[call.sy + j] == RowPixels(mode, img[call.sy + j]);
  }

  lemma MovedPixel(mode: Mode, row: Bytes, sx: nat, width: nat, i: nat)
    requires mode.Valid() && |row| == mode.pitch && sx + width <= mode.hres && i < width
    ensures var a, n, b := Wide(mode, sx), Wide(mode, width), Wide(mode, i);
            && a + n <= |row| && b + mode.pixelWidth <= n
            && row[a..a + n][b..b + mode.pixelWidth] == PixelIn(mode, row, sx + i)
  {
    hide Wide;
    ColumnsFit(mode, sx, width);
    WideAdds(mode, i, 1);
    WideAdds(mode, i + 1, width - i - 1);
    WideAdds(mode, sx, i);
    SliceOfSlice(row, Wide(mode, sx), Wide(mode, width), Wide(mode, i), mode.pixelWidth);
  }

  lemma SliceOfSlice(s: Bytes, a: nat, n: nat, b: nat, k: nat)
    requires a + n <= |s| && b + k <= n
    ensures s[a..a + n][b..b + k] == s[a + b..a + b + k]
  {
    var t, u := s[a..a + n][b..b + k], s[a + b..a + b + k];
    forall i | 0 <= i < k
      ensures t[i] == u[i]
    {
      assert t[i] == s[a..a + n][b + i] == s[a + (b + i)];
      assert u[i] == s[a + b + i];
    }
    assert t == u;
  }

  lemma StoredRow(mode: Mode, call: BltCall, img: Image, target: Image, blt: Bytes, y: nat)
    requires Ready(mode, call, img, blt) && Fits(mode, target) && call.op != VideoToBltBuffer && y < mode.vres
    requires PlaneOf(mode, target) == PlaneOf(mode, img)
    ensures RowPixels(mode, Store(mode, call, target, NewRows(mode, call, img, blt))[y])
         == PlaneRow(mode, call, PlaneOf(mode, img), blt, y)
  {
    hide NewRow, NewPixel, Patch, PixelIn, Wide;
    var rows := NewRows(mode, call, img, blt);
    var r := Store(mode, call, target, rows);
    forall x | 0 <= x < mode.hres
      ensures RowPixels(mode, r[y])[x] == PlaneRow(mode, call, PlaneOf(mode, img), blt, y)[x]
    {
      assert RowPixels(mode, target[y])[x] == PlaneOf(mode, target)[y][x];
      if call.dy <= y < call.dy + call.height {
        var d := rows[y - call.dy];
        ColumnsFit(mode, call.dx, call.width);
        PatchedPixel(mode, target[y], call.dx, call.width, d, x);
        if call.dx <= x < call.dx + call.width {
          NewRowPixel(mode, call, img, blt, x - call.dx, y - call.dy);
        }
      }
    }
  }

  /** Storing a call's rows in an image that shows the same plane refines the plane's step. */
  lemma StoreRefines(mode: Mode, call: BltCall, img: Image, target: Image, blt: Bytes)
    requires Ready(mode, call, img, blt) && Fits(mode, target) && call.op != VideoToBltBuffer
    requires PlaneOf(mode, target) == PlaneOf(mode, img)
    ensures PlaneOf(mode, Store(mode, call, target, NewRows(mode, call, img, blt)))
         == PlaneStep(mode, PlaneOf(mode, img), call, blt)
  {
    hide NewRow, PlaneRow, RowPixels, Store;
    forall y | 0 <= y < mode.vres
      ensures PlaneOf(mode, Store(mode, call, target, NewRows(mode, call, img, blt)))[y]
           == PlaneStep(mode, PlaneOf(mode, img), call, blt)[y]
    {
      StoredRow(mode, call, img, target, blt, y);
    }
  }

  /** From SetMode on, over any sequence of transfers, the physical frame buffer shows exactly what
      a plain plane of pixels would: all black, then changed by each accepted call in turn. */
  lemma {:induction false} RunRefinesPlane(mode: Mode, s: Screen, calls: Calls)
    requires mode.Valid() && ScreenFits(mode, s) && mode.hres < TWO64 && mode.vres < TWO64
    requires CallsOwe(mode, calls)
    ensures var s0 := Step(mode, s, ClearCall(mode), Black());
            PlaneOf(mode, Run(mode, s0, calls).video) == PlaneRun(mode, PlaneOf(mode, s0.shadow), calls)
    decreases |calls|
  {
    hide PlaneOf, PlaneStep, Store, NewRows;
    var s0 := Step(mode, s, ClearCall(mode), Black());
    ScreenShowsShadow(mode, s, []);
    if calls != [] {
      var prefix, last := calls[..|calls| - 1], calls[|calls| - 1];
      assert last in calls;
      RunRefinesPlane(mode, s, prefix);
      ScreenShowsShadow(mode, s, prefix);
      var s1 := Run(mode, s0, prefix);
      if last.0.Accepted(mode) && last.0.op != VideoToBltBuffer {
        StoreRefines(mode, last.0, s1.shadow, s1.video, last.1);
      } else {
        RefusedIsIdle(mode, PlaneOf(mode, s1.video), last.0, last.1);
      }
    }
  }

  lemma RefusedIsIdle(mode: Mode, p: Plane, call: BltCall, blt: Bytes)
    requires mode.Valid() && PlaneFits(mode, p) && (call.Accepted(mode) ==> call.Owes(mode, |blt|))
    requires !call.Accepted(mode) || call.op == VideoToBltBuffer
    ensures PlaneStep(mode, p, call, blt) == p
  {
  }

  /** The cleared plane is black in every pixel. */
  lemma ClearedPlaneIsBlack(mode: Mode, s: Screen, x: nat, y: nat)
    requires mode.Valid() && ScreenFits(mode, s) && mode.hres < TWO64 && mode.vres < TWO64
    requires x < mode.hres && y < mode.vres
    ensures PlaneOf(mode, Step(mode, s, ClearCall(mode), Black()).shadow)[y][x]
         == PixelBytes(mode, BltPixel(0, 0, 0, 0))
  {
    hide PixelBytes, PlaneOf, Store, NewRows;
    StoreRefines(mode, ClearCall(mode), s.shadow, s.shadow, Black());
    assert PlaneStep(mode, PlaneOf(mode, s.shadow), ClearCall(mode), Black())[y]
        == PlaneRow(mode, ClearCall(mode), PlaneOf(mode, s.shadow), Black(), y);
  }
}
