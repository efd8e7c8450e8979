/** A frame buffer seen as rows of bytes and as a plane of pixels: how storing a slice at
    row * pitch + column changes one row, and how writing a rectangle changes the plane.
    Rows are the pitch bytes of one scan line, whether or not pixels fill them; a plane is a
    sequence of rows of pixels. */
module Raster {
  import opened Slices

  type Bytes = seq<bv8>
  type Image = seq<Bytes>

  // ----- rows of a flat buffer

  function Off(y: nat, pitch: nat): nat {
    y * pitch
  }

  lemma OffStep(y: nat, pitch: nat)
    ensures Off(0, pitch) == 0
    ensures Off(y + 1, pitch) == Off(y, pitch) + pitch
  {
  }

  lemma {:induction false} OffMonotone(y: nat, z: nat, pitch: nat)
    requires y < z
    ensures Off(y, pitch) + pitch <= Off(z, pitch)
    decreases z
  {
    OffStep(z - 1, pitch);
    if y < z - 1 {
      OffMonotone(y, z - 1, pitch);
    }
  }

  /** The buffer m as h rows of `pitch` bytes. */
  ghost function Rows(m: Bytes, pitch: nat, h: nat): (img: Image)
    requires |m| == Off(h, pitch)
    ensures |img| == h && forall y :: 0 <= y < h ==> |img[y]| == pitch
  {
    seq(h, y requires 0 <= y < h => RowAt(m, pitch, h, y))
  }

  ghost function RowAt(m: Bytes, pitch: nat, h: nat, y: nat): (row: Bytes)
    requires |m| == Off(h, pitch) && y < h
    ensures |row| == pitch
  {
    OffMonotone(y, h, pitch);
    m[Off(y, pitch)..Off(y, pitch) + pitch]
  }

  /** Reading inside one row. */
  lemma ReadRow(m: Bytes, pitch: nat, h: nat, y: nat, c: nat, n: nat)
    requires |m| == Off(h, pitch) && y < h && c + n <= pitch
    ensures Off(y, pitch) + c + n <= |m|
    ensures m[Off(y, pitch) + c..Off(y, pitch) + c + n] == Rows(m, pitch, h)[y][c..c + n]
  {
    hide Off;
    OffMonotone(y, h, pitch);
    var o := Off(y, pitch);
    assert m[o + c..o + c + n] == m[o..o + pitch][c..c + n];
  }

  lemma OtherRow(m: Bytes, pitch: nat, h: nat, y: nat, c: nat, d: Bytes, z: nat)
    requires |m| == Off(h, pitch) && y < h && c + |d| <= pitch && z < h && z != y
    ensures Off(y, pitch) + c + |d| <= |m|
    ensures RowAt(Patch(m, Off(y, pitch) + c, d), pitch, h, z) == RowAt(m, pitch, h, z)
  {
    hide Off, Patch;
    OffMonotone(y, h, pitch);
    OffMonotone(z, h, pitch);
    if z < y { OffMonotone(z, y, pitch); } else { OffMonotone(y, z, pitch); }
    var a, b := Off(y, pitch) + c, Off(z, pitch);
    assert b + pitch <= a || a + |d| <= b;
    SliceElsewhere(m, a, d, b, pitch);
    PatchSize(m, a, d);
  }

  lemma PatchSize(m: Bytes, a: nat, d: Bytes)
    requires a + |d| <= |m|
    ensures |Patch(m, a, d)| == |m|
  {
  }

  lemma SliceElsewhere(m: Bytes, a: nat, d: Bytes, b: nat, n: nat)
    requires a + |d| <= |m| && b + n <= |m|
    requires b + n <= a || a + |d| <= b
    ensures |Patch(m, a, d)| == |m| && Patch(m, a, d)[b..b + n] == m[b..b + n]
  {
    var p := Patch(m, a, d);
    assert forall k :: 0 <= k < a ==> p[k] == m[k];
    assert forall k :: a + |d| <= k < |m| ==> p[k] == m[k];
    assert p[b..b + n] == m[b..b + n];
  }

  lemma SameRow(m: Bytes, pitch: nat, h: nat, y: nat, c: nat, d: Bytes)
    requires |m| == Off(h, pitch) && y < h && c + |d| <= pitch
    ensures Off(y, pitch) + c + |d| <= |m|
    ensures RowAt(Patch(m, Off(y, pitch) + c, d), pitch, h, y) == Patch(RowAt(m, pitch, h, y), c, d)
  {
    hide Off, Patch;
    OffMonotone(y, h, pitch);
    PatchSize(m, Off(y, pitch) + c, d);
    SliceAround(m, Off(y, pitch), pitch, c, d);
  }

  lemma SliceAround(m: Bytes, o: nat, n: nat, c: nat, d: Bytes)
    requires o + n <= |m| && c + |d| <= n
    ensures |Patch(m, o + c, d)| == |m| && Patch(m, o + c, d)[o..o + n] == Patch(m[o..o + n], c, d)
  {
  }

  /** Storing d at row y, byte column c of the flat buffer patches that row and no other. */
  lemma PatchRows(m: Bytes, pitch: nat, h: nat, y: nat, c: nat, d: Bytes)
    requires |m| == Off(h, pitch) && y < h && c + |d| <= pitch
    ensures Off(y, pitch) + c + |d| <= |m|
    ensures Rows(Patch(m, Off(y, pitch) + c, d), pitch, h)
         == Rows(m, pitch, h)[y := Patch(Rows(m, pitch, h)[y], c, d)]
  {
    hide Off, Patch, RowAt;
    OffMonotone(y, h, pitch);
    SameRow(m, pitch, h, y, c, d);
    forall z | 0 <= z < h && z != y
      ensures RowAt(Patch(m, Off(y, pitch) + c, d), pitch, h, z) == RowAt(m, pitch, h, z)
    {
      OtherRow(m, pitch, h, y, c, d, z);
    }
  }

  lemma RowOfPrefix(m: Bytes, pitch: nat, h: nat, y: nat)
    requires |m| == Off(h, pitch) && y < h - 1
    ensures |m[..Off(h - 1, pitch)]| == Off(h - 1, pitch)
    ensures Rows(m[..Off(h - 1, pitch)], pitch, h - 1)[y] == Rows(m, pitch, h)[y]
  {
    hide Off;
    OffMonotone(y, h - 1, pitch);
    OffMonotone(h - 1, h, pitch);
  }

  /** A buffer is determined by its rows. */
  lemma {:induction false} RowsDetermine(a: Bytes, b: Bytes, pitch: nat, h: nat)
    requires |a| == |b| == Off(h, pitch) && Rows(a, pitch, h) == Rows(b, pitch, h)
    ensures a == b
    decreases h
  {
    OffStep(0, pitch);
    if h > 0 {
      hide Off;
      OffStep(h - 1, pitch);
      var o := Off(h - 1, pitch);
      var ra, rb := Rows(a[..o], pitch, h - 1), Rows(b[..o], pitch, h - 1);
      forall y | 0 <= y < h - 1
        ensures ra[y] == rb[y]
      {
        RowOfPrefix(a, pitch, h, y);
        RowOfPrefix(b, pitch, h, y);
      }
      assert ra == rb;
      RowsDetermine(a[..o], b[..o], pitch, h - 1);
      assert a == a[..o] + Rows(a, pitch, h)[h - 1];
      assert b == b[..o] + Rows(b, pitch, h)[h - 1];
    }
  }

  // ----- rectangles

  /** Every row has n bytes. */
  ghost predicate Uniform(img: Image, n: nat) {
    forall i :: 0 <= i < |img| ==> |img[i]| == n
  }

  /** Rows of n bytes to be stored at byte column c of the image rows y, y + 1, ... */
  ghost predicate RectFits(img: Image, pitch: nat, y: nat, c: nat, n: nat, rows: Image) {
    Uniform(img, pitch) && Uniform(rows, n) && c + n <= pitch && y + |rows| <= |img|
  }

  ghost function WriteRect(img: Image, pitch: nat, y: nat, c: nat, n: nat, rows: Image): (r: Image)
    requires RectFits(img, pitch, y, c, n, rows)
    ensures |r| == |img| && Uniform(r, pitch)
    ensures forall k :: 0 <= k < |img| ==>
      r[k] == if y <= k < y + |rows| then Patch(img[k], c, rows[k - y]) else img[k]
  {
    seq(|img|, k requires 0 <= k < |img| => if y <= k < y + |rows| then Patch(img[k], c, rows[k - y]) else img[k])
  }

  lemma WriteRectEmpty(img: Image, pitch: nat, y: nat, c: nat, n: nat)
    requires Uniform(img, pitch) && y <= |img| && c + n <= pitch
    ensures WriteRect(img, pitch, y, c, n, []) == img
  {
  }

  /** One more row at the bottom. */
  lemma WriteRectDown(img: Image, pitch: nat, y: nat, c: nat, n: nat, rows: Image, d: Bytes)
    requires RectFits(img, pitch, y, c, n, rows) && |d| == n && y + |rows| < |img|
    ensures RectFits(img, pitch, y, c, n, rows + [d])
    ensures WriteRect(img, pitch, y, c, n, rows + [d])
         == WriteRect(img, pitch, y, c, n, rows)[y + |rows| := Patch(img[y + |rows|], c, d)]
  {
    hide Patch;
  }

  /** One more row at the top. */
  lemma WriteRectUp(img: Image, pitch: nat, y: nat, c: nat, n: nat, rows: Image, d: Bytes)
    requires RectFits(img, pitch, y + 1, c, n, rows) && |d| == n
    ensures RectFits(img, pitch, y, c, n, [d] + rows)
    ensures WriteRect(img, pitch, y, c, n, [d] + rows)
         == WriteRect(img, pitch, y + 1, c, n, rows)[y := Patch(img[y], c, d)]
  {
    hide Patch;
  }
}
