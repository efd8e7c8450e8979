/** The frame buffer driver itself: it draws into an in-memory shadow and pushes each changed row
    to the physical frame buffer through CopyVideoBuffer.  Every method is proved against the row
    machine of BltModel, on both buffers, and against the bus writes that BusTraffic plans for
    the call. */
module FrameBuffer {
  import opened Efi
  import opened Slices
  import opened Raster
  import opened Pixels
  import opened BltModel
  import opened BusTraffic
  import opened ScreenBytes

  class VideoDevice {
    const mode: Mode
    const shadow: array<bv8>    // VbeFrameBuffer
    const video: array<bv8>     // physical memory at LinearFrameBuffer
    const shadowBase: nat
    const videoBase: nat
    ghost var log: seq<BusWrite>

    ghost predicate Valid()
      reads this
    {
      && mode.Valid() && mode.hres < TWO64 && mode.vres < TWO64
      && shadow != video
      && shadow.Length == video.Length == Off(mode.vres, mode.pitch)
    }

    function Bases(): Bases {
      BusTraffic.Bases(shadowBase, videoBase)
    }

    /** FbGopCheckForVbe: the shadow is sized from the full scan line, the mode keeps only its low
        16 bits.  Lemma PixelsApartIff says when the pixels are still apart. */
    constructor (hres: nat, vres: nat, bytesPerPixel: nat, layout: Layout, frameBuffer: array<bv8>,
                 frameBufferBase: nat, poolBase: nat)
      requires hres < 0x1_0000_0000 && vres < 0x1_0000_0000 && 1 <= bytesPerPixel <= 4 && layout.Valid()
      requires frameBuffer.Length == Off(vres, hres * bytesPerPixel)
      ensures mode == Mode(hres, vres, KeptPitch(hres, bytesPerPixel), bytesPerPixel, layout)
      ensures fresh(shadow) && video == frameBuffer && log == []
      ensures hres * bytesPerPixel < 0x1_0000 <==> mode.Valid()
      ensures hres * bytesPerPixel < 0x1_0000 ==> Valid()
    {
      var bytesPerScanLine := hres * bytesPerPixel;
      shadow := new bv8[Off(vres, bytesPerScanLine)](_ => 0);
      mode := Mode(hres, vres, bytesPerScanLine % 0x1_0000, bytesPerPixel, layout);
      video := frameBuffer;
      shadowBase, videoBase := poolBase, frameBufferBase;
      log := [];
    }

    ghost function Abs(): (s: Screen)
      reads this, shadow, video
      requires Valid()
      ensures ScreenFits(mode, s)
    {
      Screen(Rows(shadow[..], mode.pitch, mode.vres), Rows(video[..], mode.pitch, mode.vres))
    }

    /** PciIo.Mem.Write from the shadow to the frame buffer. */
    method MemWrite(width: nat, address: nat, count: nat, buffer: nat)
      requires Valid() && videoBase <= address && width * count >= 0
      requires address - videoBase + width * count <= video.Length && buffer + width * count <= shadow.Length
      modifies video, `log
      ensures video[..] == Patch(old(video[..]), address - videoBase, shadow[..][buffer..buffer + width * count])
      ensures log == old(log) + [BusWrite(width, address, count)]
    {
      var n, a := width * count, address - videoBase;
      forall k | 0 <= k < n {
        video[a + k] := shadow[buffer + k];
      }
      assert video[..] == Patch(old(video[..]), a, shadow[..][buffer..buffer + n]);
      log := log + [BusWrite(width, address, count)];
    }

    /** The guarded write that CopyVideoBuffer makes three times. */
    method WriteIfAny(width: nat, address: nat, count: nat, buffer: nat)
      requires Valid() && videoBase <= address && width * count >= 0
      requires address - videoBase + width * count <= video.Length && buffer + width * count <= shadow.Length
      modifies video, `log
      ensures video[..] == Patch(old(video[..]), address - videoBase, shadow[..][buffer..buffer + width * count])
      ensures log == old(log) + IfAny(width, address, count)
    {
      hide Off, Patch;
      if count != 0 {
        MemWrite(width, address, count, buffer);
      } else {
        PatchNothing(video[..], address - videoBase);
        assert shadow[..][buffer..buffer + width * count] == [] && log + [] == log;
      }
    }

    /** The second half of CopyVideoBuffer, from a 4-byte aligned source on: words, then bytes. */
    method CopyWords(vbeBuffer: nat, frameBufferAddr: nat, n: nat)
      requires Valid() && videoBase <= frameBufferAddr
      requires frameBufferAddr - videoBase + n <= video.Length && vbeBuffer + n <= shadow.Length
      modifies video, `log
      ensures video[..] == Patch(old(video[..]), frameBufferAddr - videoBase, shadow[..][vbeBuffer..vbeBuffer + n])
      ensures log == old(log) + WordsPlan(frameBufferAddr, n)
    {
      hide Off, Patch, IfAny;
      var copyBlockNum := n / 4;
      var remainingBytes := n % 4;
      PatchInTwo(video[..], frameBufferAddr - videoBase, shadow[..], vbeBuffer, 4 * copyBlockNum, remainingBytes);
      Associate(log, IfAny(4, frameBufferAddr, copyBlockNum), IfAny(1, frameBufferAddr + 4 * copyBlockNum, remainingBytes));
      WriteIfAny(4, frameBufferAddr, copyBlockNum, vbeBuffer);
      WriteIfAny(1, frameBufferAddr + 4 * copyBlockNum, remainingBytes, vbeBuffer + 4 * copyBlockNum);
    }

    /** CopyVideoBuffer: the row's bytes arrive unchanged, whatever the split. */
    method CopyVideoBuffer(vbeBuffer0: nat, destinationX: nat, destinationY: nat, totalBytes: nat)
      requires Valid() && destinationY < mode.vres && Wide(mode, destinationX) + totalBytes <= mode.pitch
      requires vbeBuffer0 + totalBytes <= shadow.Length
      modifies video, `log
      ensures Off(destinationY, mode.pitch) + Wide(mode, destinationX) + totalBytes <= video.Length
      ensures video[..] == Patch(old(video[..]), Off(destinationY, mode.pitch) + Wide(mode, destinationX),
                                 shadow[..][vbeBuffer0..vbeBuffer0 + totalBytes])
      ensures log == old(log) + CopyPlan(shadowBase + vbeBuffer0,
                                         videoBase + Off(destinationY, mode.pitch) + Wide(mode, destinationX), totalBytes)
    {
      hide Off, Wide, Patch, IfAny, WordsPlan, Rows, Unaligned;
      OffMonotone(destinationY, mode.vres, mode.pitch);
      var frameBufferAddr := videoBase + Off(destinationY, mode.pitch) + Wide(mode, destinationX);
      var vbeBuffer := vbeBuffer0;
      if totalBytes < 4 {
        MemWrite(1, frameBufferAddr, totalBytes, vbeBuffer);
        return;
      }
      var unalignedBytes := Unaligned(shadowBase + vbeBuffer);
      FewUnaligned(shadowBase + vbeBuffer);
      ghost var n := totalBytes - unalignedBytes;
      PatchInTwo(video[..], frameBufferAddr - videoBase, shadow[..], vbeBuffer, unalignedBytes, n);
      Associate(log, IfAny(1, frameBufferAddr, unalignedBytes), WordsPlan(frameBufferAddr + unalignedBytes, n));
      WriteIfAny(1, frameBufferAddr, unalignedBytes, vbeBuffer);
      frameBufferAddr := frameBufferAddr + unalignedBytes;
      vbeBuffer := vbeBuffer + unalignedBytes;
      CopyWords(vbeBuffer, frameBufferAddr, totalBytes - unalignedBytes);
    }

    // ----- one row

    /** gBS->CopyMem inside the shadow, overlap allowed. */
    method CopyMem(dst: nat, src: nat, n: nat)
      requires Valid() && dst + n <= shadow.Length && src + n <= shadow.Length
      modifies shadow
      ensures shadow[..] == Patch(old(shadow[..]), dst, old(shadow[..])[src..src + n])
    {
      forall k | 0 <= k < n {
        shadow[dst + k] := shadow[src + k];
      }
    }

    /** Stores one pixel's bytes at vbeBuffer. */
    method StorePixel(vbeBuffer: nat, px: Bytes)
      requires Valid() && |px| == mode.pixelWidth && vbeBuffer + |px| <= shadow.Length
      modifies shadow
      ensures shadow[..] == Patch(old(shadow[..]), vbeBuffer, px)
    {
      forall k | 0 <= k < |px| {
        shadow[vbeBuffer + k] := px[k];
      }
    }

    /** Updates one row of the physical frame buffer from the shadow at vbeBuffer. */
    method PushRow(vbeBuffer: nat, destinationX: nat, destinationY: nat, totalBytes: nat)
      requires Valid() && destinationY < mode.vres && Wide(mode, destinationX) + totalBytes <= mode.pitch
      requires vbeBuffer + totalBytes <= shadow.Length
      modifies video, `log
      ensures Abs() == old(Abs()).(video := old(Abs()).video[destinationY :=
        Patch(old(Abs()).video[destinationY], Wide(mode, destinationX), shadow[..][vbeBuffer..vbeBuffer + totalBytes])])
      ensures log == old(log) + CopyPlan(shadowBase + vbeBuffer,
                                         videoBase + Off(destinationY, mode.pitch) + Wide(mode, destinationX), totalBytes)
    {
      hide Off, Wide, Patch, CopyPlan, Rows;
      PatchRows(video[..], mode.pitch, mode.vres, destinationY, Wide(mode, destinationX),
                shadow[..][vbeBuffer..vbeBuffer + totalBytes]);
      CopyVideoBuffer(vbeBuffer, destinationX, destinationY, totalBytes);
    }

    /** The pixel loop of a fill: the first row of the rectangle. */
    method FillRow(vbeBuffer0: nat, px: Bytes, width: nat)
      requires Valid() && |px| == mode.pixelWidth && vbeBuffer0 + Wide(mode, width) <= shadow.Length
      modifies shadow
      ensures |Repeat(px, width)| == Wide(mode, width)
      ensures shadow[..] == Patch(old(shadow[..]), vbeBuffer0, Repeat(px, width))
    {
      hide Off, Patch;
      ghost var was := shadow[..];
      var vbeBuffer := vbeBuffer0;
      PatchNothing(was, vbeBuffer0);
      for index := 0 to width
        invariant vbeBuffer == vbeBuffer0 + Wide(mode, index) && |Repeat(px, index)| == Wide(mode, index)
        invariant Wide(mode, index) <= Wide(mode, width)
        invariant shadow[..] == Patch(was, vbeBuffer0, Repeat(px, index))
      {
        WideAdds(mode, index, 1);
        WideAdds(mode, index + 1, width - index - 1);
        StorePixel(vbeBuffer, px);
        PatchTwice(was, vbeBuffer0, Repeat(px, index), px);
        vbeBuffer := vbeBuffer + mode.pixelWidth;
      }
    }

    /** The pixel loop of BufferToVideo: one row of the Blt buffer, packed. */
    method PackRow(vbeBuffer0: nat, blt: array<bv8>, blt0: nat, width: nat)
      requires Valid() && blt != shadow && blt0 + width * BLT_PIXEL_SIZE <= blt.Length
      requires vbeBuffer0 + Wide(mode, width) <= shadow.Length
      modifies shadow
      ensures shadow[..] == Patch(old(shadow[..]), vbeBuffer0, PackedRow(mode, blt[..], blt0, width))
    {
      hide Off, Patch, Pack, WordBytes;
      ghost var was := shadow[..];
      var vbeBuffer, ptr := vbeBuffer0, blt0;
      PatchNothing(was, vbeBuffer0);
      for dstX := 0 to width
        invariant vbeBuffer == vbeBuffer0 + Wide(mode, dstX) && ptr == blt0 + dstX * BLT_PIXEL_SIZE
        invariant Wide(mode, dstX) <= Wide(mode, width)
        invariant shadow[..] == Patch(was, vbeBuffer0, PackedRow(mode, blt[..], blt0, dstX))
      {
        WideAdds(mode, dstX, 1);
        WideAdds(mode, dstX + 1, width - dstX - 1);
        var pixel := Pack(mode.layout, BltPixel(blt[ptr], blt[ptr + 1], blt[ptr + 2], blt[ptr + 3]));
        assert BltPixelAt(blt[..], ptr) == BltPixel(blt[ptr], blt[ptr + 1], blt[ptr + 2], blt[ptr + 3]);
        ghost var d := PackedRow(mode, blt[..], blt0, dstX);
        StorePixel(vbeBuffer, WordBytes(pixel)[..mode.pixelWidth]);
        PatchTwice(was, vbeBuffer0, d, PixelBytes(mode, BltPixelAt(blt[..], ptr)));
        vbeBuffer, ptr := vbeBuffer + mode.pixelWidth, ptr + BLT_PIXEL_SIZE;
      }
    }

    /** The pixel loop of VideoToBltBuffer: one screen row, unpacked. */
    method UnpackRow(vbeBuffer0: nat, blt: array<bv8>, blt0: nat, ghost row: Bytes, ghost x: nat, width: nat)
      requires Valid() && mode.pixelWidth == 4 && blt != shadow && blt != video
      requires vbeBuffer0 + width * 4 <= shadow.Length && (x + width) * 4 <= |row|
      requires shadow[..][vbeBuffer0..vbeBuffer0 + width * 4] == row[x * 4..(x + width) * 4]
      requires blt0 + width * BLT_PIXEL_SIZE <= blt.Length
      modifies blt
      ensures blt[..] == Patch(old(blt[..]), blt0, UnpackedRow(mode, row, x, width))
    {
      hide Off, Patch, Unpack, Word, UnpackedRow;
      ghost var was := blt[..];
      var vbeBuffer, ptr := vbeBuffer0, blt0;
      PatchNothing(was, blt0);
      for dstX := 0 to width
        invariant vbeBuffer == vbeBuffer0 + dstX * 4 && ptr == blt0 + dstX * BLT_PIXEL_SIZE
        invariant blt[..] == Patch(was, blt0, UnpackedRow(mode, row, x, dstX))
      {
        ghost var o := (x + dstX) * 4;
        SameWord(shadow[..], vbeBuffer0, row, x * 4, width * 4, dstX * 4);
        var pixel := Word(shadow[vbeBuffer], shadow[vbeBuffer + 1], shadow[vbeBuffer + 2], shadow[vbeBuffer + 3]);
        ghost var d, e := UnpackedRow(mode, row, x, dstX), BltBytes(mode, row, o);
        PatchTwice(was, blt0, d, e);
        UnpackOneMore(mode, row, x, dstX);
        StoreBlt(blt, ptr, Unpack(mode.layout, pixel));
        vbeBuffer, ptr := vbeBuffer + 4, ptr + BLT_PIXEL_SIZE;
      }
    }

    /** Blt->Red, Blt->Blue, Blt->Green and Blt->Reserved. */
    method StoreBlt(blt: array<bv8>, ptr: nat, px: BltPixel)
      requires ptr + BLT_PIXEL_SIZE <= blt.Length
      modifies blt
      ensures blt[..] == Patch(old(blt[..]), ptr, [px.blue, px.green, px.red, px.reserved])
    {
      blt[ptr + 2] := px.red;
      blt[ptr] := px.blue;
      blt[ptr + 1] := px.green;
      blt[ptr + 3] := px.reserved;
    }

    // ----- the four operations

    method BltVideoToBltBuffer(call: BltCall, blt: array<bv8>)
      requires Valid() && call.op == VideoToBltBuffer && call.Accepted(mode) && call.Owes(mode, blt.Length)
      requires blt != shadow && blt != video
      modifies blt
      ensures blt[..] == BltAfter(mode, call, Abs().shadow, old(blt[..]), call.height)
    {
      hide Off, Patch, UnpackedRow, BltAfter, Rows;
      ghost var s, was := Abs(), blt[..];
      var srcY, dstY := call.sy, call.dy;
      ColumnsFit(mode, call.sx, call.width);
      BltAfterNone(mode, call, s.shadow, was);
      ghost var k := 0;
      while dstY < call.height + call.dy
        invariant k <= call.height && srcY == call.sy + k && dstY == call.dy + k
        invariant blt[..] == BltAfter(mode, call, s.shadow, was, k)
      {
        BltAfterStep(mode, call, s.shadow, was, k);
        ReadRow(shadow[..], mode.pitch, mode.vres, srcY, call.sx * 4, call.width * 4);
        OffMonotone(srcY, mode.vres, mode.pitch);
        UnpackRow(Off(srcY, mode.pitch) + call.sx * 4, blt, Off(dstY, call.Delta()) + call.dx * BLT_PIXEL_SIZE,
                  s.shadow[srcY], call.sx, call.width);
        srcY, dstY, k := srcY + 1, dstY + 1, k + 1;
      }
    }

    /** gBS->CopyMem of one row segment inside the shadow, seen on rows. */
    method MoveRow(dstY: nat, dx: nat, srcY: nat, sx: nat, width: nat)
      requires Valid() && dstY < mode.vres && srcY < mode.vres && dx + width <= mode.hres && sx + width <= mode.hres
      modifies shadow
      ensures Wide(mode, dx) + Wide(mode, width) <= mode.pitch && Wide(mode, sx) + Wide(mode, width) <= mode.pitch
      ensures var was := old(Abs());
              Abs() == was.(shadow := was.shadow[dstY := Patch(was.shadow[dstY], Wide(mode, dx),
                                                               was.shadow[srcY][Wide(mode, sx)..Wide(mode, sx) + Wide(mode, width)])])
    {
      hide Off, Wide, Patch;
      ColumnsFit(mode, dx, width);
      ColumnsFit(mode, sx, width);
      var n := Wide(mode, width);
      ReadRow(shadow[..], mode.pitch, mode.vres, srcY, Wide(mode, sx), n);
      PatchRows(shadow[..], mode.pitch, mode.vres, dstY, Wide(mode, dx),
                Abs().shadow[srcY][Wide(mode, sx)..Wide(mode, sx) + n]);
      CopyMem(Off(dstY, mode.pitch) + Wide(mode, dx), Off(srcY, mode.pitch) + Wide(mode, sx), n);
    }

    /** Pushes the shadow's rectangle row fromY to screen row dstY. */
    method PushFrom(fromY: nat, dstY: nat, dx: nat, width: nat)
      requires Valid() && fromY < mode.vres && dstY < mode.vres && dx + width <= mode.hres
      modifies video, `log
      ensures Wide(mode, dx) + Wide(mode, width) <= mode.pitch
      ensures var was := old(Abs());
              Abs() == was.(video := was.video[dstY := Patch(was.video[dstY], Wide(mode, dx),
                                                             was.shadow[fromY][Wide(mode, dx)..Wide(mode, dx) + Wide(mode, width)])])
      ensures log == old(log) + RowPlan(mode, Bases(), fromY, dstY, dx, width)
    {
      hide Off, Wide, Patch, CopyPlan, Rows;
      ColumnsFit(mode, dx, width);
      ReadRow(shadow[..], mode.pitch, mode.vres, fromY, Wide(mode, dx), Wide(mode, width));
      PushRow(Off(fromY, mode.pitch) + Wide(mode, dx), dx, dstY, Wide(mode, width));
    }

    method BltVideoToVideo(call: BltCall)
      requires Valid() && call.op == VideoToVideo && call.Accepted(mode) && call.Owes(mode, 0)
      modifies shadow, video, `log
      ensures Abs() == Step(mode, old(Abs()), call, [])
      ensures log == old(log) + CallPlan(mode, Bases(), call)
    {
      hide Off, Wide, Patch, Store, WriteRect, NewRow, Partial, NewRows, Rows, RowPlan;
      ghost var s := Abs();
      ghost var rows := NewRows(mode, call, s.shadow, []);
      ghost var up := call.dy <= call.sy;
      StoredNothing(mode, call, s, rows, up);
      for index := 0 to call.height
        invariant Partial(mode, call, s, rows, up, index, Abs())
        invariant log == old(log) + RoundsPlan(mode, Bases(), call, index)
      {
        var srcY, dstY;
        if call.dy <= call.sy {
          srcY := call.sy + index;
          dstY := call.dy + index;
        } else {
          srcY := call.sy + call.height - index - 1;
          dstY := call.dy + call.height - index - 1;
        }
        SourceUntouched(mode, call, s, rows, up, index, Abs());
        ghost var before := Abs();
        MoveRow(dstY, call.dx, srcY, call.sx, call.width);
        ghost var after := Abs();
        PushFrom(dstY, dstY, call.dx, call.width);
        OneMoreRow(mode, call, s, rows, up, index, before, after, Abs());
      }
      StoredAll(mode, call, s, rows, up, Abs());
    }

    /** One row of BufferToVideo in the shadow, seen on rows. */
    method DrawPackedRow(dstY: nat, dx: nat, width: nat, blt: array<bv8>, blt0: nat)
      requires Valid() && dstY < mode.vres && dx + width <= mode.hres
      requires blt != shadow && blt != video && blt0 + width * BLT_PIXEL_SIZE <= blt.Length
      modifies shadow
      ensures Wide(mode, dx) + Wide(mode, width) <= mode.pitch
      ensures var was := old(Abs());
              Abs() == was.(shadow := was.shadow[dstY := Patch(was.shadow[dstY], Wide(mode, dx),
                                                               PackedRow(mode, blt[..], blt0, width))])
    {
      hide Off, Wide, Patch, PackedRow;
      ColumnsFit(mode, dx, width);
      PatchRows(shadow[..], mode.pitch, mode.vres, dstY, Wide(mode, dx), PackedRow(mode, blt[..], blt0, width));
      PackRow(Off(dstY, mode.pitch) + Wide(mode, dx), blt, blt0, width);
    }

    method BltBufferToVideo(call: BltCall, blt: array<bv8>)
      requires Valid() && call.op == BufferToVideo && call.Accepted(mode) && call.Owes(mode, blt.Length)
      requires blt != shadow && blt != video
      modifies shadow, video, `log
      ensures Abs() == Step(mode, old(Abs()), call, old(blt[..])) && blt[..] == old(blt[..])
      ensures log == old(log) + CallPlan(mode, Bases(), call)
    {
      hide Off, Wide, Patch, Store, WriteRect, PackedRow, Partial, Rows, RowPlan;
      ghost var s := Abs();
      ghost var rows := NewRows(mode, call, s.shadow, blt[..]);
      StoredNothing(mode, call, s, rows, true);
      var srcY, dstY := call.sy, call.dy;
      ghost var k := 0;
      while srcY < call.height + call.sy
        invariant k <= call.height && srcY == call.sy + k && dstY == call.dy + k
        invariant blt[..] == old(blt[..]) && Partial(mode, call, s, rows, true, k, Abs())
        invariant log == old(log) + RoundsPlan(mode, Bases(), call, k)
      {
        BltRowInside(call, call.sx, call.sy, k);
        assert rows[k] == NewRow(mode, call, s.shadow, blt[..], k);
        ghost var before := Abs();
        DrawPackedRow(dstY, call.dx, call.width, blt, Off(srcY, call.Delta()) + call.sx * BLT_PIXEL_SIZE);
        ghost var after := Abs();
        PushFrom(dstY, dstY, call.dx, call.width);
        OneMoreRow(mode, call, s, rows, true, k, before, after, Abs());
        srcY, dstY, k := srcY + 1, dstY + 1, k + 1;
      }
      StoredAll(mode, call, s, rows, true, Abs());
    }

    /** The first row of a fill in the shadow, seen on rows. */
    method DrawFillRow(dstY: nat, dx: nat, width: nat, px: Bytes)
      requires Valid() && dstY < mode.vres && dx + width <= mode.hres && |px| == mode.pixelWidth
      modifies shadow
      ensures Wide(mode, dx) + Wide(mode, width) <= mode.pitch && |Repeat(px, width)| == Wide(mode, width)
      ensures var was := old(Abs());
              Abs() == was.(shadow := was.shadow[dstY := Patch(was.shadow[dstY], Wide(mode, dx), Repeat(px, width))])
    {
      hide Off, Patch, Repeat;
      ColumnsFit(mode, dx, width);
      PatchRows(shadow[..], mode.pitch, mode.vres, dstY, Wide(mode, dx), Repeat(px, width));
      FillRow(Off(dstY, mode.pitch) + Wide(mode, dx), px, width);
    }

    /** The shadow half of a fill: the first row is drawn, the others are copied from it. */
    method FillShadow(call: BltCall, px: Bytes, ghost rows: Image)
      requires Valid() && call.op == VideoFill && Storing(mode, call, rows) && |px| == mode.pixelWidth
      requires forall k :: 0 <= k < call.height ==> rows[k] == Repeat(px, call.width)
      modifies shadow
      ensures Abs() == old(Abs()).(shadow := StoreSome(mode, call, old(Abs()).shadow, rows, true, call.height))
    {
      hide Off, Wide, Patch, WriteRect, Repeat, Rows, StoreSome;
      ghost var s := Abs();
      StoreSomeNone(mode, call, s.shadow, rows, true);
      StoreSomeMore(mode, call, s.shadow, rows, true, 0);
      DrawFillRow(call.dy, call.dx, call.width, px);
      var dstY := call.dy + 1;
      while dstY < call.height + call.dy
        invariant call.dy + 1 <= dstY <= call.dy + call.height
        invariant Abs() == s.(shadow := StoreSome(mode, call, s.shadow, rows, true, dstY - call.dy))
      {
        FirstRowStands(mode, call, s.shadow, rows, dstY - call.dy);
        StoreSomeMore(mode, call, s.shadow, rows, true, dstY - call.dy);
        MoveRow(dstY, call.dx, call.dy, call.dx, call.width);
        dstY := dstY + 1;
      }
    }

    /** The screen half: the shadow's first row goes to every row of the rectangle. */
    method PushFill(call: BltCall, ghost before: Image, ghost rows: Image)
      requires Valid() && call.op == VideoFill && Storing(mode, call, rows) && Fits(mode, before)
      requires Abs().shadow == StoreSome(mode, call, before, rows, true, call.height)
      requires forall k :: 0 <= k < call.height ==> rows[k] == rows[0]
      modifies video, `log
      ensures Abs() == old(Abs()).(video := StoreSome(mode, call, old(Abs()).video, rows, true, call.height))
      ensures log == old(log) + CallPlan(mode, Bases(), call)
    {
      hide Off, Wide, Patch, WriteRect, Rows, StoreSome, RowPlan;
      ghost var s := Abs();
      FirstRowStands(mode, call, before, rows, call.height);
      StoreSomeNone(mode, call, s.video, rows, true);
      var dstY := call.dy;
      while dstY < call.height + call.dy
        invariant call.dy <= dstY <= call.dy + call.height
        invariant Abs() == s.(video := StoreSome(mode, call, s.video, rows, true, dstY - call.dy))
        invariant log == old(log) + RoundsPlan(mode, Bases(), call, dstY - call.dy)
      {
        StoreSomeMore(mode, call, s.video, rows, true, dstY - call.dy);
        PushFrom(call.dy, dstY, call.dx, call.width);
        dstY := dstY + 1;
      }
    }

    method BltVideoFill(call: BltCall, blt: array<bv8>)
      requires Valid() && call.op == VideoFill && call.Accepted(mode) && call.Owes(mode, blt.Length)
      requires blt != shadow && blt != video
      modifies shadow, video, `log
      ensures Abs() == Step(mode, old(Abs()), call, old(blt[..])) && blt[..] == old(blt[..])
      ensures log == old(log) + CallPlan(mode, Bases(), call)
    {
      hide Off, Wide, Patch, Store, WriteRect, Repeat, Rows, StoreSome, Pack, WordBytes, CallPlan;
      ghost var s := Abs();
      ghost var rows := NewRows(mode, call, s.shadow, blt[..]);
      var pixel := Pack(mode.layout, BltPixel(blt[0], blt[1], blt[2], blt[3]));
      var px := WordBytes(pixel)[..mode.pixelWidth];
      assert forall k :: 0 <= k < call.height ==> rows[k] == NewRow(mode, call, s.shadow, blt[..], k) == Repeat(px, call.width);
      FillShadow(call, px, rows);
      PushFill(call, s.shadow, rows);
      StoreSomeAll(mode, call, s.shadow, rows, true);
      StoreSomeAll(mode, call, s.video, rows, true);
    }

    // ----- the protocol functions

    /** FbGopVbeBltWorker. */
    method VbeBltWorker(call: BltCall, blt: array?<bv8>) returns (status: EfiStatus)
      requires Valid() && blt != shadow && blt != video
      requires call.sx + call.width < TWO64 && call.sy + call.height < TWO64
      requires call.dx + call.width < TWO64 && call.dy + call.height < TWO64
      requires call.Accepted(mode) ==> call.Owes(mode, if blt == null then 0 else blt.Length)
      modifies shadow, video, blt, `log
      ensures status == Success <==> call.Accepted(mode)
      ensures status == Success || status == InvalidParameter
      ensures Abs() == Step(mode, old(Abs()), call, if blt == null then [] else old(blt[..]))
      ensures old(Abs().video == Abs().shadow) ==> Abs().video == Abs().shadow
      ensures log == old(log) + CallPlan(mode, Bases(), call)
      ensures blt != null ==>
        blt[..] == if call.op == VideoToBltBuffer && call.Accepted(mode)
                   then BltAfter(mode, call, old(Abs()).shadow, old(blt[..]), call.height) else old(blt[..])
    {
      hide Off, Wide, Patch, Store, NewRows, BltAfter, Rows;
      if call.op == UnknownOperation {
        return InvalidParameter;
      }
      if call.width == 0 || call.height == 0 {
        return InvalidParameter;
      }
      if call.op == VideoToBltBuffer {
        if call.sy + call.height > mode.vres {
          return InvalidParameter;
        }
        if call.sx + call.width > mode.hres {
          return InvalidParameter;
        }
      } else {
        if call.dy + call.height > mode.vres {
          return InvalidParameter;
        }
        if call.dx + call.width > mode.hres {
          return InvalidParameter;
        }
      }
      match call.op {
        case VideoToBltBuffer => BltVideoToBltBuffer(call, blt);
        case VideoToVideo =>
          MoveNeedsNoBuffer(mode, Abs(), call, if blt == null then [] else blt[..]);
          BltVideoToVideo(call);
        case VideoFill => BltVideoFill(call, blt);
        case BufferToVideo => BltBufferToVideo(call, blt);
      }
      status := Success;
    }

    /** FbGopGraphicsOutputVbeBlt: which calls are accepted, and what becomes of every byte of the screen,
        the shadow and the Blt buffer. */
    method Blt(call: BltCall, blt: array?<bv8>) returns (status: EfiStatus)
      requires Valid() && blt != shadow && blt != video
      requires call.sx + call.width < TWO64 && call.sy + call.height < TWO64
      requires call.dx + call.width < TWO64 && call.dy + call.height < TWO64
      requires call.Accepted(mode) ==> call.Owes(mode, if blt == null then 0 else blt.Length)
      modifies shadow, video, blt, `log
      ensures status == Success || status == InvalidParameter
      ensures status == Success <==>
                && call.op != UnknownOperation && call.width > 0 && call.height > 0
                && (call.op == VideoToBltBuffer ==> call.sx + call.width <= mode.hres && call.sy + call.height <= mode.vres)
                && (call.op != VideoToBltBuffer ==> call.dx + call.width <= mode.hres && call.dy + call.height <= mode.vres)
      ensures status == Success && call.op != VideoToBltBuffer ==>
                var d := if blt == null then [] else old(blt[..]);
                && Drawing(mode, call, old(shadow[..]), old(shadow[..]), d) && Drawing(mode, call, old(shadow[..]), old(video[..]), d)
                && DrawsAll(mode, call, old(shadow[..]), old(shadow[..]), d, shadow[..])
                && DrawsAll(mode, call, old(shadow[..]), old(video[..]), d, video[..])
      ensures status == Success && call.op == VideoToBltBuffer && blt != null && call.Delta() >= call.width * BLT_PIXEL_SIZE ==>
                && Reading(mode, call, old(shadow[..]), old(blt[..]))
                && Reads(mode, call, old(shadow[..]), old(blt[..]), blt[..])
      ensures status != Success || call.op == VideoToBltBuffer ==>
                shadow[..] == old(shadow[..]) && video[..] == old(video[..]) && log == old(log)
      ensures status != Success || call.op != VideoToBltBuffer ==> blt != null ==> blt[..] == old(blt[..])
      ensures Abs() == Step(mode, old(Abs()), call, if blt == null then [] else old(blt[..]))
      ensures log == old(log) + CallPlan(mode, Bases(), call)
    {
      hide Off, Rows, Step, DrawsAll, Reads, BltAfter, CallPlan, BltCall.Owes;
      ghost var s, v, d := shadow[..], video[..], if blt == null then [] else blt[..];
      status := VbeBltWorker(call, blt);
      BltOnBytes(mode, Bases(), call, s, v, d, shadow[..], video[..]);
      if status == Success && call.op == VideoToBltBuffer && blt != null && call.Delta() >= call.width * BLT_PIXEL_SIZE {
        ReadOnBytes(mode, call, s, d, blt[..]);
      }
    }

    /** FbGopGraphicsOutputSetMode of the one mode there is: clears the screen, after which the
        frame buffer equals the shadow byte for byte. */
    method SetMode(modeNumber: nat) returns (status: EfiStatus)
      requires Valid()
      modifies shadow, video, `log
      ensures status == if modeNumber == 0 then Success else Unsupported
      ensures modeNumber == 0 ==> forall a :: 0 <= a < video.Length ==> video[a] == 0 && shadow[a] == 0
      ensures modeNumber == 0 ==> Abs() == Step(mode, old(Abs()), ClearCall(mode), Black()) && video[..] == shadow[..]
      ensures modeNumber == 0 ==> log == old(log) + CallPlan(mode, Bases(), ClearCall(mode))
      ensures modeNumber != 0 ==> Abs() == old(Abs()) && log == old(log)
    {
      if modeNumber >= 1 {
        return Unsupported;
      }
      var background := new bv8[4](_ => 0);
      assert background[..] == Black();
      ghost var s := Abs();
      ClearMakesCoherent(mode, s);
      var ignored := Blt(ClearCall(mode), background);
      RowsDetermine(video[..], shadow[..], mode.pitch, mode.vres);
      ClearIsBlack(mode, s, shadow[..], video[..]);
      assert forall a :: 0 <= a < video.Length ==> video[a] == video[..][a] && shadow[a] == shadow[..][a];
      return Success;
    }
  }

  /** What the row machine's step does to the bytes. */
  lemma BltOnBytes(mode: Mode, bases: Bases, call: BltCall, s: Bytes, v: Bytes, d: Bytes, s': Bytes, v': Bytes)
    requires mode.Valid() && |s| == |v| == |s'| == |v'| == Off(mode.vres, mode.pitch)
    requires ScreenFits(mode, Screen(Rows(s, mode.pitch, mode.vres), Rows(v, mode.pitch, mode.vres)))
    requires call.Accepted(mode) ==> call.Owes(mode, |d|)
    requires Screen(Rows(s', mode.pitch, mode.vres), Rows(v', mode.pitch, mode.vres))
          == Step(mode, Screen(Rows(s, mode.pitch, mode.vres), Rows(v, mode.pitch, mode.vres)), call, d)
    ensures call.Accepted(mode) && call.op != VideoToBltBuffer ==>
              && Drawing(mode, call, s, s, d) && Drawing(mode, call, s, v, d)
              && DrawsAll(mode, call, s, s, d, s') && DrawsAll(mode, call, s, v, d, v')
    ensures !call.Accepted(mode) || call.op == VideoToBltBuffer ==>
              s' == s && v' == v && CallPlan(mode, bases, call) == []
  {
    hide Off, Rows, Step, DrawsAll;
    if call.Accepted(mode) && call.op != VideoToBltBuffer {
      StepDraws(mode, call, s, v, d, s', v');
    } else {
      StepIdle(mode, call, s, v, d, s', v');
    }
  }

  lemma ReadOnBytes(mode: Mode, call: BltCall, s: Bytes, d: Bytes, d': Bytes)
    requires mode.Valid() && |s| == Off(mode.vres, mode.pitch) && Fits(mode, Rows(s, mode.pitch, mode.vres))
    requires call.op == VideoToBltBuffer && call.Accepted(mode) && call.Owes(mode, |d|)
    requires call.Delta() >= call.width * BLT_PIXEL_SIZE
    requires d' == BltAfter(mode, call, Rows(s, mode.pitch, mode.vres), d, call.height)
    ensures Reading(mode, call, s, d) && |d'| == |d| && Reads(mode, call, s, d, d')
  {
    hide Off, Rows, Reads, BltAfter;
    AfterSize(mode, call, Rows(s, mode.pitch, mode.vres), d);
    ReadIsReads(mode, call, s, d, d');
  }

  lemma AfterSize(mode: Mode, call: BltCall, img: Image, blt: Bytes)
    requires Ready(mode, call, img, blt) && call.op == VideoToBltBuffer
    ensures |BltAfter(mode, call, img, blt, call.height)| == |blt|
  {
  }

  /** Storing n + k bytes of a source in two steps. */
  lemma PatchInTwo(was: Bytes, a: nat, src: Bytes, o: nat, n: nat, k: nat)
    requires a + n + k <= |was| && o + n + k <= |src|
    ensures Patch(Patch(was, a, src[o..o + n]), a + n, src[o + n..o + n + k]) == Patch(was, a, src[o..o + (n + k)])
  {
    hide Patch;
    assert src[o..o + (n + k)] == src[o..o + n] + src[o + n..o + n + k];
    PatchTwice(was, a, src[o..o + n], src[o + n..o + n + k]);
  }

  lemma FewUnaligned(address: nat)
    ensures Unaligned(address) < 4
  {
  }

  lemma Associate<T>(log: seq<T>, a: seq<T>, b: seq<T>)
    ensures log + a + b == log + (a + b)
  {
  }

  // ----- the truncated scan line

  /** BytesPerScanLine as the mode keeps it. */
  function KeptPitch(hres: nat, pixelWidth: nat): nat {
    Off(hres, pixelWidth) % 0x1_0000
  }

  /** Byte a belongs to pixel (x, y) in a frame buffer of this pitch. */
  predicate PixelCovers(pitch: nat, pixelWidth: nat, x: nat, y: nat, a: nat) {
    Off(y, pitch) + Off(x, pixelWidth) <= a < Off(y, pitch) + Off(x, pixelWidth) + pixelWidth
  }

  /** No two pixels of the screen have a byte in common. */
  ghost predicate PixelsApart(hres: nat, vres: nat, pixelWidth: nat, pitch: nat) {
    forall a: nat, x: nat, y: nat, v: nat, w: nat
      | x < hres && y < vres && v < hres && w < vres
        && PixelCovers(pitch, pixelWidth, x, y, a) && PixelCovers(pitch, pixelWidth, v, w, a)
      :: x == v && y == w
  }

  /** A pixel of a screen whose rows do not wrap, or that has one row only, has its bytes to itself. */
  lemma OwnBytes(hres: nat, vres: nat, pixelWidth: nat, pitch: nat, a: nat, x: nat, y: nat, v: nat, w: nat)
    requires vres <= 1 || pitch == Off(hres, pixelWidth)
    requires x < hres && y < vres && v < hres && w < vres
    requires PixelCovers(pitch, pixelWidth, x, y, a) && PixelCovers(pitch, pixelWidth, v, w, a)
    ensures x == v && y == w
  {
    hide Off;
    OffMonotone(x, hres, pixelWidth);
    OffMonotone(v, hres, pixelWidth);
    if y < w { OffMonotone(y, w, pitch); }
    if w < y { OffMonotone(w, y, pitch); }
    if x < v { OffMonotone(x, v, pixelWidth); }
    if v < x { OffMonotone(v, x, pixelWidth); }
  }

  lemma OffReflects(x: nat, h: nat, pitch: nat)
    requires Off(x, pitch) < Off(h, pitch)
    ensures x < h
  {
    hide Off;
    if h < x { OffMonotone(h, x, pitch); }
  }

  /** With a shortened pitch the last pixels of row 0 lie where row 1 begins. */
  lemma RowsRunIntoEachOther(hres: nat, pixelWidth: nat, pitch: nat)
    requires pixelWidth > 0 && pitch < Off(hres, pixelWidth)
    ensures var x := pitch / pixelWidth;
            x < hres && PixelCovers(pitch, pixelWidth, x, 0, pitch) && PixelCovers(pitch, pixelWidth, 0, 1, pitch)
  {
    var x := pitch / pixelWidth;
    assert Off(x, pixelWidth) == pitch - pitch % pixelWidth;
    hide Off;
    OffReflects(x, hres, pixelWidth);
    OffStep(0, pitch);
    OffStep(0, pixelWidth);
  }

  /** The kept pitch leaves every pixel its own bytes if and only if the scan line fits 16 bits or the
      screen has at most one row. */
  lemma PixelsApartIff(hres: nat, vres: nat, pixelWidth: nat)
    requires 1 <= pixelWidth <= 4
    ensures PixelsApart(hres, vres, pixelWidth, KeptPitch(hres, pixelWidth))
       <==> hres * pixelWidth < 0x1_0000 || vres <= 1
  {
    hide PixelCovers;
    assert Off(hres, pixelWidth) == hres * pixelWidth;
    hide Off;
    var pitch := KeptPitch(hres, pixelWidth);
    if hres * pixelWidth < 0x1_0000 || vres <= 1 {
      forall a: nat, x: nat, y: nat, v: nat, w: nat
        | x < hres && y < vres && v < hres && w < vres
          && PixelCovers(pitch, pixelWidth, x, y, a) && PixelCovers(pitch, pixelWidth, v, w, a)
        ensures x == v && y == w
      {
        OwnBytes(hres, vres, pixelWidth, pitch, a, x, y, v, w);
      }
    } else {
      RowsRunIntoEachOther(hres, pixelWidth, pitch);
    }
  }

  // ----- progress of a call that stores rows from the top down or from the bottom up

  /** The rows stored in the first `index` rounds, and the image row of the first of them. */
  ghost function DoneRows(call: BltCall, rows: Image, up: bool, index: nat): (nat, Image)
    requires |rows| == call.height && index <= call.height
  {
    if up then (call.dy, rows[..index]) else (call.dy + call.height - index, rows[call.height - index..])
  }

  ghost predicate Storing(mode: Mode, call: BltCall, rows: Image) {
    && mode.Valid() && call.Accepted(mode) && call.op != VideoToBltBuffer
    && |rows| == call.height && Uniform(rows, Wide(mode, call.width))
  }

  ghost function StoreSome(mode: Mode, call: BltCall, target: Image, rows: Image, up: bool, index: nat): (r: Image)
    requires Storing(mode, call, rows) && Fits(mode, target) && index <= call.height
    ensures Fits(mode, r)
  {
    ColumnsFit(mode, call.dx, call.width);
    var (y, done) := DoneRows(call, rows, up, index);
    WriteRect(target, mode.pitch, y, Wide(mode, call.dx), Wide(mode, call.width), done)
  }

  /** Both images after `index` rounds. */
  ghost predicate Partial(mode: Mode, call: BltCall, s: Screen, rows: Image, up: bool, index: nat, now: Screen) {
    && Storing(mode, call, rows) && ScreenFits(mode, s) && index <= call.height
    && now.shadow == StoreSome(mode, call, s.shadow, rows, up, index)
    && now.video == StoreSome(mode, call, s.video, rows, up, index)
  }

  lemma StoreSomeNone(mode: Mode, call: BltCall, target: Image, rows: Image, up: bool)
    requires Storing(mode, call, rows) && Fits(mode, target)
    ensures StoreSome(mode, call, target, rows, up, 0) == target
  {
    hide Wide, Patch;
    ColumnsFit(mode, call.dx, call.width);
    WriteRectEmpty(target, mode.pitch, DoneRows(call, rows, up, 0).0, Wide(mode, call.dx), Wide(mode, call.width));
  }

  lemma StoreSomeAll(mode: Mode, call: BltCall, target: Image, rows: Image, up: bool)
    requires Storing(mode, call, rows) && Fits(mode, target)
    ensures StoreSome(mode, call, target, rows, up, call.height) == Store(mode, call, target, rows)
  {
    assert rows[..call.height] == rows && rows[0..] == rows;
  }

  lemma StoredNothing(mode: Mode, call: BltCall, s: Screen, rows: Image, up: bool)
    requires Storing(mode, call, rows) && ScreenFits(mode, s)
    ensures Partial(mode, call, s, rows, up, 0, s)
  {
    StoreSomeNone(mode, call, s.shadow, rows, up);
    StoreSomeNone(mode, call, s.video, rows, up);
  }

  lemma StoredAll(mode: Mode, call: BltCall, s: Screen, rows: Image, up: bool, now: Screen)
    requires Partial(mode, call, s, rows, up, call.height, now)
    ensures now == Screen(Store(mode, call, s.shadow, rows), Store(mode, call, s.video, rows))
  {
    StoreSomeAll(mode, call, s.shadow, rows, up);
    StoreSomeAll(mode, call, s.video, rows, up);
  }

  /** The rectangle row and the image row handled in round `index`. */
  function RoundRow(call: BltCall, up: bool, index: nat): nat
    requires index < call.height
  {
    if up then index else call.height - index - 1
  }

  /** Round `index` stores rectangle row r in image row dy + r, which was untouched. */
  ghost predicate StoresRow(mode: Mode, call: BltCall, target: Image, rows: Image, up: bool, index: nat)
    requires Storing(mode, call, rows) && Fits(mode, target) && index < call.height
  {
    ColumnsFit(mode, call.dx, call.width);
    var r := RoundRow(call, up, index);
    var now := StoreSome(mode, call, target, rows, up, index);
    && now[call.dy + r] == target[call.dy + r]
    && StoreSome(mode, call, target, rows, up, index + 1)
       == now[call.dy + r := Patch(now[call.dy + r], Wide(mode, call.dx), rows[r])]
  }

  lemma StoreDownward(mode: Mode, call: BltCall, target: Image, rows: Image, index: nat)
    requires Storing(mode, call, rows) && Fits(mode, target) && index < call.height
    ensures StoresRow(mode, call, target, rows, true, index)
  {
    hide Wide, Patch, WriteRect;
    ColumnsFit(mode, call.dx, call.width);
    RowOutside(mode, call, target, rows, true, index, call.dy + index);
    assert rows[..index + 1] == rows[..index] + [rows[index]];
    WriteRectDown(target, mode.pitch, call.dy, Wide(mode, call.dx), Wide(mode, call.width), rows[..index], rows[index]);
  }

  lemma StoreUpward(mode: Mode, call: BltCall, target: Image, rows: Image, index: nat)
    requires Storing(mode, call, rows) && Fits(mode, target) && index < call.height
    ensures StoresRow(mode, call, target, rows, false, index)
  {
    hide Wide, Patch, WriteRect;
    ColumnsFit(mode, call.dx, call.width);
    RowOutside(mode, call, target, rows, false, index, call.dy + RoundRow(call, false, index));
    var k := call.height - index - 1;
    assert rows[k..] == [rows[k]] + rows[k + 1..];
    WriteRectUp(target, mode.pitch, call.dy + k, Wide(mode, call.dx), Wide(mode, call.width), rows[k + 1..], rows[k]);
  }

  lemma StoreSomeMore(mode: Mode, call: BltCall, target: Image, rows: Image, up: bool, index: nat)
    requires Storing(mode, call, rows) && Fits(mode, target) && index < call.height
    ensures Wide(mode, call.dx) + Wide(mode, call.width) <= mode.pitch
    ensures StoresRow(mode, call, target, rows, up, index)
  {
    hide Wide, StoresRow;
    ColumnsFit(mode, call.dx, call.width);
    if up {
      StoreDownward(mode, call, target, rows, index);
    } else {
      StoreUpward(mode, call, target, rows, index);
    }
  }

  /** Writing the round's row in the shadow, then the same bytes on screen, is one more round. */
  lemma OneMoreRow(mode: Mode, call: BltCall, s: Screen, rows: Image, up: bool, index: nat,
                   before: Screen, after: Screen, now: Screen)
    requires index < call.height && Partial(mode, call, s, rows, up, index, before)
    requires ScreenFits(mode, before) && Wide(mode, call.dx) + Wide(mode, call.width) <= mode.pitch
    requires var y, c := call.dy + RoundRow(call, up, index), Wide(mode, call.dx);
             && after == before.(shadow := before.shadow[y := Patch(before.shadow[y], c, rows[RoundRow(call, up, index)])])
             && now == after.(video := after.video[y := Patch(after.video[y], c, after.shadow[y][c..c + Wide(mode, call.width)])])
    ensures Partial(mode, call, s, rows, up, index + 1, now)
  {
    hide Wide, StoreSome;
    StoreSomeMore(mode, call, s.shadow, rows, up, index);
    StoreSomeMore(mode, call, s.video, rows, up, index);
    var r := RoundRow(call, up, index);
    PatchedPart(before.shadow[call.dy + r], Wide(mode, call.dx), rows[r]);
  }

  lemma PatchedPart(s: Bytes, a: nat, d: Bytes)
    requires a + |d| <= |s|
    ensures Patch(s, a, d)[a..a + |d|] == d
  {
  }

  /** The ascending or descending choice of VideoToVideo: the row about to be copied has not been
      written yet, so it still is the row the source rectangle had before the call. */
  lemma SourceUntouched(mode: Mode, call: BltCall, s: Screen, rows: Image, up: bool, index: nat, now: Screen)
    requires index < call.height && call.op == VideoToVideo && call.Owes(mode, 0)
    requires Partial(mode, call, s, rows, up, index, now) && rows == NewRows(mode, call, s.shadow, [])
    requires up == (call.dy <= call.sy)
    ensures var r := RoundRow(call, up, index);
            && r < call.height && call.sy + r < mode.vres
            && now.shadow[call.sy + r] == s.shadow[call.sy + r]
            && Wide(mode, call.sx) + Wide(mode, call.width) <= |s.shadow[call.sy + r]|
            && rows[r] == s.shadow[call.sy + r][Wide(mode, call.sx)..Wide(mode, call.sx) + Wide(mode, call.width)]
  {
    hide Wide, Patch, StoreSome;
    ColumnsFit(mode, call.sx, call.width);
    var r := RoundRow(call, up, index);
    assert rows[r] == NewRow(mode, call, s.shadow, [], r);
    RowOutside(mode, call, s.shadow, rows, up, index, call.sy + r);
  }

  /** Image rows that no round before `index` has written. */
  lemma RowOutside(mode: Mode, call: BltCall, target: Image, rows: Image, up: bool, index: nat, k: nat)
    requires Storing(mode, call, rows) && Fits(mode, target) && index < call.height && k < mode.vres
    requires up ==> k >= call.dy + index
    requires !up ==> k < call.dy + call.height - index
    ensures StoreSome(mode, call, target, rows, up, index)[k] == target[k]
  {
    hide Wide, Patch;
  }

  /** Once a fill has stored its first row, that row of the rectangle can be copied from. */
  lemma FirstRowStands(mode: Mode, call: BltCall, target: Image, rows: Image, index: nat)
    requires Storing(mode, call, rows) && Fits(mode, target) && 0 < index <= call.height
    ensures Wide(mode, call.dx) + Wide(mode, call.width) <= mode.pitch
    ensures StoreSome(mode, call, target, rows, true, index)[call.dy]
            [Wide(mode, call.dx)..Wide(mode, call.dx) + Wide(mode, call.width)] == rows[0]
  {
    hide Wide, Patch;
    ColumnsFit(mode, call.dx, call.width);
    PatchedPart(target[call.dy], Wide(mode, call.dx), rows[0]);
  }

  /** A move does not look at the Blt buffer. */
  lemma MoveNeedsNoBuffer(mode: Mode, s: Screen, call: BltCall, blt: Bytes)
    requires mode.Valid() && ScreenFits(mode, s) && call.op == VideoToVideo && call.Accepted(mode) && call.Owes(mode, 0)
    ensures Step(mode, s, call, blt) == Step(mode, s, call, [])
  {
    hide Wide, Store;
    assert NewRows(mode, call, s.shadow, blt) == NewRows(mode, call, s.shadow, []);
  }

  lemma SameWord(a: Bytes, i: nat, b: Bytes, j: nat, n: nat, o: nat)
    requires i + n <= |a| && j + n <= |b| && a[i..i + n] == b[j..j + n] && o + 4 <= n
    ensures a[i + o] == b[j + o] && a[i + o + 1] == b[j + o + 1] && a[i + o + 2] == b[j + o + 2] && a[i + o + 3] == b[j + o + 3]
  {
    var c, d := a[i..i + n], b[j..j + n];
    assert forall k :: 0 <= k < n ==> c[k] == a[i + k] && d[k] == b[j + k];
    assert c[o] == d[o] && c[o + 1] == d[o + 1] && c[o + 2] == d[o + 2] && c[o + 3] == d[o + 3];
  }
}
