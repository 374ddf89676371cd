/**
 * Images: a width x height buffer of bytes with `channels` bytes per
 * pixel, pixel (row, col) starting at byte (row * width + col) * channels,
 * and the in-place horizontal and vertical flips.
 */
module Images {
  import opened Indexing

  type byte = x: int | 0 <= x < 256

  /** get_buffer_size: bytes of a width x height image with `ch` channels. */
  function BufferSize(w: int, h: int, ch: int): int
  {
    w * h * ch
  }

  /** get_pixel_ptr: the position of the first byte of pixel (row, col). */
  function PixelIndex(w: int, ch: int, row: int, col: int): int
  {
    row * w * ch + col * ch
  }

  /** The row, column and channel of byte n. */
  function Row(w: int, ch: int, n: int): int
    requires w > 0 && ch > 0
  {
    n / ch / w
  }

  function Col(w: int, ch: int, n: int): int
    requires w > 0 && ch > 0
  {
    n / ch % w
  }

  function Chan(ch: int, n: int): int
    requires ch > 0
  {
    n % ch
  }

  /** Byte k of pixel (row, col) lies inside the buffer; the pixel is the Index-th one. */
  lemma PixelIndexBounds(w: int, h: int, ch: int, row: int, col: int, k: int)
    requires 0 <= row < h && 0 <= col < w && 0 <= k < ch
    ensures PixelIndex(w, ch, row, col) == Index(w, row, col) * ch
    ensures 0 <= PixelIndex(w, ch, row, col) + k < BufferSize(w, h, ch)
  {
    var p := Index(w, row, col);
    IndexBounds(w, h, row, col);
    assert row * w * ch + col * ch == (row * w + col) * ch;
    MulSucc(p, ch);
    MulLeq(p + 1, h * w, ch);
    MulLeq(0, p, ch);
    assert h * w * ch == w * h * ch;
  }

  /** Every byte of the buffer is byte Chan of pixel (Row, Col). */
  lemma PixelSplit(w: int, h: int, ch: int, n: int)
    requires w > 0 && h > 0 && ch > 0 && 0 <= n < BufferSize(w, h, ch)
    ensures 0 <= Row(w, ch, n) < h && 0 <= Col(w, ch, n) < w && 0 <= Chan(ch, n) < ch
    ensures n == PixelIndex(w, ch, Row(w, ch, n), Col(w, ch, n)) + Chan(ch, n)
  {
    var p := n / ch;
    IndexSplit(ch, w * h, n);
    assert w * h == h * w;
    IndexSplit(w, h, p);
    assert n == (Row(w, ch, n) * w + Col(w, ch, n)) * ch + Chan(ch, n);
  }

  /** Byte k of pixel (row, col) decodes back to row, col and k. */
  lemma PixelDecode(w: int, ch: int, row: int, col: int, k: int)
    requires 0 <= col < w && 0 <= k < ch
    ensures Row(w, ch, PixelIndex(w, ch, row, col) + k) == row
    ensures Col(w, ch, PixelIndex(w, ch, row, col) + k) == col
    ensures Chan(ch, PixelIndex(w, ch, row, col) + k) == k
  {
    assert PixelIndex(w, ch, row, col) + k == Index(ch, Index(w, row, col), k) by {
      assert row * w * ch + col * ch == (row * w + col) * ch;
    }
    IndexDecode(ch, Index(w, row, col), k);
    IndexDecode(w, row, col);
  }

  /** The byte that byte n is exchanged with by a horizontal flip: same row and channel, mirrored column. */
  function MirrorH(w: int, ch: int, n: int): int
    requires w > 0 && ch > 0
  {
    PixelIndex(w, ch, Row(w, ch, n), w - 1 - Col(w, ch, n)) + Chan(ch, n)
  }

  /** The byte that byte n is exchanged with by a vertical flip: same column and channel, mirrored row. */
  function MirrorV(w: int, h: int, ch: int, n: int): int
    requires w > 0 && ch > 0
  {
    PixelIndex(w, ch, h - 1 - Row(w, ch, n), Col(w, ch, n)) + Chan(ch, n)
  }

  lemma MirrorHBounds(w: int, h: int, ch: int, n: int)
    requires w > 0 && h > 0 && ch > 0 && 0 <= n < BufferSize(w, h, ch)
    ensures 0 <= MirrorH(w, ch, n) < BufferSize(w, h, ch)
    ensures MirrorH(w, ch, MirrorH(w, ch, n)) == n
  {
    PixelSplit(w, h, ch, n);
    PixelIndexBounds(w, h, ch, Row(w, ch, n), w - 1 - Col(w, ch, n), Chan(ch, n));
    PixelDecode(w, ch, Row(w, ch, n), w - 1 - Col(w, ch, n), Chan(ch, n));
  }

  lemma MirrorVBounds(w: int, h: int, ch: int, n: int)
    requires w > 0 && h > 0 && ch > 0 && 0 <= n < BufferSize(w, h, ch)
    ensures 0 <= MirrorV(w, h, ch, n) < BufferSize(w, h, ch)
    ensures MirrorV(w, h, ch, MirrorV(w, h, ch, n)) == n
  {
    PixelSplit(w, h, ch, n);
    PixelIndexBounds(w, h, ch, h - 1 - Row(w, ch, n), Col(w, ch, n), Chan(ch, n));
    PixelDecode(w, ch, h - 1 - Row(w, ch, n), Col(w, ch, n), Chan(ch, n));
  }

  /** The buffer flipped left to right. */
  function FlipHOf(b: seq<byte>, w: int, h: int, ch: int): (f: seq<byte>)
    requires w > 0 && h > 0 && ch > 0 && |b| == BufferSize(w, h, ch)
    ensures |f| == |b|
  {
    seq(|b|, n requires 0 <= n < |b| => MirrorHBounds(w, h, ch, n); b[MirrorH(w, ch, n)])
  }

  /** The buffer flipped top to bottom. */
  function FlipVOf(b: seq<byte>, w: int, h: int, ch: int): (f: seq<byte>)
    requires w > 0 && h > 0 && ch > 0 && |b| == BufferSize(w, h, ch)
    ensures |f| == |b|
  {
    seq(|b|, n requires 0 <= n < |b| => MirrorVBounds(w, h, ch, n); b[MirrorV(w, h, ch, n)])
  }

  /** Byte k of pixel (row, col) of the flipped buffer is byte k of pixel (row, w-1-col) before. */
  lemma FlipHOfAt(b: seq<byte>, w: int, h: int, ch: int, row: int, col: int, k: int)
    requires w > 0 && h > 0 && ch > 0 && |b| == BufferSize(w, h, ch)
    requires 0 <= row < h && 0 <= col < w && 0 <= k < ch
    ensures 0 <= PixelIndex(w, ch, row, col) + k < |b| && 0 <= PixelIndex(w, ch, row, w - 1 - col) + k < |b|
    ensures FlipHOf(b, w, h, ch)[PixelIndex(w, ch, row, col) + k] == b[PixelIndex(w, ch, row, w - 1 - col) + k]
  {
    PixelIndexBounds(w, h, ch, row, col, k);
    PixelIndexBounds(w, h, ch, row, w - 1 - col, k);
    PixelDecode(w, ch, row, col, k);
  }

  /** Byte k of pixel (row, col) of the flipped buffer is byte k of pixel (h-1-row, col) before. */
  lemma FlipVOfAt(b: seq<byte>, w: int, h: int, ch: int, row: int, col: int, k: int)
    requires w > 0 && h > 0 && ch > 0 && |b| == BufferSize(w, h, ch)
    requires 0 <= row < h && 0 <= col < w && 0 <= k < ch
    ensures 0 <= PixelIndex(w, ch, row, col) + k < |b| && 0 <= PixelIndex(w, ch, h - 1 - row, col) + k < |b|
    ensures FlipVOf(b, w, h, ch)[PixelIndex(w, ch, row, col) + k] == b[PixelIndex(w, ch, h - 1 - row, col) + k]
  {
    PixelIndexBounds(w, h, ch, row, col, k);
    PixelIndexBounds(w, h, ch, h - 1 - row, col, k);
    PixelDecode(w, ch, row, col, k);
  }

  /** Flipping left to right twice gives back the image. */
  lemma FlipHTwice(b: seq<byte>, w: int, h: int, ch: int)
    requires w > 0 && h > 0 && ch > 0 && |b| == BufferSize(w, h, ch)
    ensures FlipHOf(FlipHOf(b, w, h, ch), w, h, ch) == b
  {
    var f := FlipHOf(FlipHOf(b, w, h, ch), w, h, ch);
    forall n | 0 <= n < |b|
      ensures f[n] == b[n]
    {
      MirrorHBounds(w, h, ch, n);
    }
  }

  /** Flipping top to bottom twice gives back the image. */
  lemma FlipVTwice(b: seq<byte>, w: int, h: int, ch: int)
    requires w > 0 && h > 0 && ch > 0 && |b| == BufferSize(w, h, ch)
    ensures FlipVOf(FlipVOf(b, w, h, ch), w, h, ch) == b
  {
    var f := FlipVOf(FlipVOf(b, w, h, ch), w, h, ch);
    forall n | 0 <= n < |b|
      ensures f[n] == b[n]
    {
      MirrorVBounds(w, h, ch, n);
    }
  }

  /** For an odd width the middle column stays where it is. */
  lemma FlipHMiddle(b: seq<byte>, w: int, h: int, ch: int, row: int, k: int)
    requires w > 0 && h > 0 && ch > 0 && |b| == BufferSize(w, h, ch) && w % 2 == 1
    requires 0 <= row < h && 0 <= k < ch
    ensures 0 <= PixelIndex(w, ch, row, w / 2) + k < |b|
    ensures FlipHOf(b, w, h, ch)[PixelIndex(w, ch, row, w / 2) + k] == b[PixelIndex(w, ch, row, w / 2) + k]
  {
    FlipHOfAt(b, w, h, ch, row, w / 2, k);
  }

  /** For an odd height the middle row stays where it is. */
  lemma FlipVMiddle(b: seq<byte>, w: int, h: int, ch: int, col: int, k: int)
    requires w > 0 && h > 0 && ch > 0 && |b| == BufferSize(w, h, ch) && h % 2 == 1
    requires 0 <= col < w && 0 <= k < ch
    ensures 0 <= PixelIndex(w, ch, h / 2, col) + k < |b|
    ensures FlipVOf(b, w, h, ch)[PixelIndex(w, ch, h / 2, col) + k] == b[PixelIndex(w, ch, h / 2, col) + k]
  {
    FlipVOfAt(b, w, h, ch, h / 2, col, k);
  }

  // ---------------------------------------------------------------------
  // The stages of the flip loops
  // ---------------------------------------------------------------------

  /** `b` with its first k bytes from position i exchanged with the k bytes from position j. */
  function SwappedPixels(b: seq<byte>, i: int, j: int, k: int): (s: seq<byte>)
    requires 0 <= i && i + k <= j && j + k <= |b|
    ensures |s| == |b|
  {
    seq(|b|, n requires 0 <= n < |b| =>
      if i <= n < i + k then b[n - i + j] else if j <= n < j + k then b[n - j + i] else b[n])
  }

  /** One more swap_bytes extends the exchanged part by one byte. */
  lemma SwapStep(b: seq<byte>, i: int, j: int, k: int, ch: int)
    requires 0 <= i && 0 <= k < ch && i + ch <= j && j + ch <= |b|
    ensures SwappedPixels(b, i, j, k)[i + k := b[j + k]][j + k := b[i + k]] == SwappedPixels(b, i, j, k + 1)
  {
  }

  /** Rows before r flipped left to right. */
  function FlippedRowsH(b: seq<byte>, w: int, h: int, ch: int, r: int): (s: seq<byte>)
    requires w > 0 && h > 0 && ch > 0 && |b| == BufferSize(w, h, ch)
    ensures |s| == |b|
  {
    seq(|b|, n requires 0 <= n < |b| =>
      MirrorHBounds(w, h, ch, n);
      if Row(w, ch, n) < r then b[MirrorH(w, ch, n)] else b[n])
  }

  /** In row r, the first c columns and the last c columns exchanged. */
  function FlippedColsH(b: seq<byte>, w: int, h: int, ch: int, r: int, c: int): (s: seq<byte>)
    requires w > 0 && h > 0 && ch > 0 && |b| == BufferSize(w, h, ch)
    ensures |s| == |b|
  {
    seq(|b|, n requires 0 <= n < |b| =>
      MirrorHBounds(w, h, ch, n);
      if Row(w, ch, n) == r && (Col(w, ch, n) < c || Col(w, ch, n) > w - 1 - c) then b[MirrorH(w, ch, n)] else b[n])
  }

  /** Rows before r and rows after h-1-r exchanged with their mirror rows. */
  function FlippedRowsV(b: seq<byte>, w: int, h: int, ch: int, r: int): (s: seq<byte>)
    requires w > 0 && h > 0 && ch > 0 && |b| == BufferSize(w, h, ch)
    ensures |s| == |b|
  {
    seq(|b|, n requires 0 <= n < |b| =>
      MirrorVBounds(w, h, ch, n);
      if Row(w, ch, n) < r || Row(w, ch, n) > h - 1 - r then b[MirrorV(w, h, ch, n)] else b[n])
  }

  /** The first c pixels of row r exchanged with those of row h-1-r. */
  function FlippedColsV(b: seq<byte>, w: int, h: int, ch: int, r: int, c: int): (s: seq<byte>)
    requires w > 0 && h > 0 && ch > 0 && |b| == BufferSize(w, h, ch)
    ensures |s| == |b|
  {
    seq(|b|, n requires 0 <= n < |b| =>
      MirrorVBounds(w, h, ch, n);
      if (Row(w, ch, n) == r || Row(w, ch, n) == h - 1 - r) && Col(w, ch, n) < c then b[MirrorV(w, h, ch, n)] else b[n])
  }

  /** Pixel (row, col) and the next pixel of its row are ch bytes apart. */
  lemma PixelNext(w: int, ch: int, row: int, col: int)
    ensures PixelIndex(w, ch, row, col) + ch == PixelIndex(w, ch, row, col + 1)
  {
  }

  /** An earlier pixel's bytes end before a later pixel's bytes begin. */
  lemma PixelsApart(w: int, ch: int, r1: int, c1: int, r2: int, c2: int)
    requires w > 0 && ch > 0 && 0 <= c1 < w && 0 <= c2 < w && (r1 < r2 || (r1 == r2 && c1 < c2))
    ensures PixelIndex(w, ch, r1, c1) + ch <= PixelIndex(w, ch, r2, c2)
  {
    assert Index(w, r1, c1) + 1 <= Index(w, r2, c2) by {
      if r1 < r2 {
        MulLeq(r1 + 1, r2, w);
      }
    }
    assert row_mul: PixelIndex(w, ch, r1, c1) == Index(w, r1, c1) * ch && PixelIndex(w, ch, r2, c2) == Index(w, r2, c2) * ch by {
      assert r1 * w * ch + c1 * ch == (r1 * w + c1) * ch;
      assert r2 * w * ch + c2 * ch == (r2 * w + c2) * ch;
    }
    MulSucc(Index(w, r1, c1), ch);
    MulLeq(Index(w, r1, c1) + 1, Index(w, r2, c2), ch);
  }

  /** Byte n lies in pixel (row, col) exactly when its decoding says so. */
  lemma InPixel(w: int, h: int, ch: int, row: int, col: int, n: int)
    requires w > 0 && h > 0 && ch > 0 && 0 <= n < BufferSize(w, h, ch) && 0 <= col < w
    ensures PixelIndex(w, ch, row, col) <= n < PixelIndex(w, ch, row, col) + ch <==>
            Row(w, ch, n) == row && Col(w, ch, n) == col
  {
    PixelSplit(w, h, ch, n);
    if PixelIndex(w, ch, row, col) <= n < PixelIndex(w, ch, row, col) + ch {
      PixelDecode(w, ch, row, col, n - PixelIndex(w, ch, row, col));
    }
  }

  /** Swapping pixel (r, c) with (r, w-1-c) extends the flipped part of row r by one column at each end. */
  lemma ColStepH(b: seq<byte>, w: int, h: int, ch: int, r: int, c: int)
    requires w > 0 && h > 0 && ch > 0 && |b| == BufferSize(w, h, ch) && 0 <= r < h && 0 <= c < w / 2
    requires 0 <= PixelIndex(w, ch, r, c) && PixelIndex(w, ch, r, c) + ch <= PixelIndex(w, ch, r, w - 1 - c)
    requires PixelIndex(w, ch, r, w - 1 - c) + ch <= |b|
    ensures SwappedPixels(FlippedColsH(b, w, h, ch, r, c), PixelIndex(w, ch, r, c), PixelIndex(w, ch, r, w - 1 - c), ch) ==
            FlippedColsH(b, w, h, ch, r, c + 1)
  {
    var i, j := PixelIndex(w, ch, r, c), PixelIndex(w, ch, r, w - 1 - c);
    var s := FlippedColsH(b, w, h, ch, r, c);
    var u := SwappedPixels(s, i, j, ch);
    var v := FlippedColsH(b, w, h, ch, r, c + 1);
    forall n | 0 <= n < |b|
      ensures u[n] == v[n]
    {
      PixelSplit(w, h, ch, n);
      InPixel(w, h, ch, r, c, n);
      InPixel(w, h, ch, r, w - 1 - c, n);
      if i <= n < i + ch {
        PixelDecode(w, ch, r, w - 1 - c, n - i);
        MirrorHBounds(w, h, ch, n);
        assert n - i + j == MirrorH(w, ch, n);
      } else if j <= n < j + ch {
        PixelDecode(w, ch, r, c, n - j);
        MirrorHBounds(w, h, ch, n);
        assert n - j + i == MirrorH(w, ch, n);
      }
    }
  }

  /** Swapping pixel (r, c) with (h-1-r, c) extends the flipped part of rows r and h-1-r by one column. */
  lemma ColStepV(b: seq<byte>, w: int, h: int, ch: int, r: int, c: int)
    requires w > 0 && h > 0 && ch > 0 && |b| == BufferSize(w, h, ch) && 0 <= r < h / 2 && 0 <= c < w
    requires 0 <= PixelIndex(w, ch, r, c) && PixelIndex(w, ch, r, c) + ch <= PixelIndex(w, ch, h - 1 - r, c)
    requires PixelIndex(w, ch, h - 1 - r, c) + ch <= |b|
    ensures SwappedPixels(FlippedColsV(b, w, h, ch, r, c), PixelIndex(w, ch, r, c), PixelIndex(w, ch, h - 1 - r, c), ch) ==
            FlippedColsV(b, w, h, ch, r, c + 1)
  {
    var i, j := PixelIndex(w, ch, r, c), PixelIndex(w, ch, h - 1 - r, c);
    var s := FlippedColsV(b, w, h, ch, r, c);
    var u := SwappedPixels(s, i, j, ch);
    var v := FlippedColsV(b, w, h, ch, r, c + 1);
    forall n | 0 <= n < |b|
      ensures u[n] == v[n]
    {
      PixelSplit(w, h, ch, n);
      InPixel(w, h, ch, r, c, n);
      InPixel(w, h, ch, h - 1 - r, c, n);
      if i <= n < i + ch {
        PixelDecode(w, ch, h - 1 - r, c, n - i);
        MirrorVBounds(w, h, ch, n);
        assert n - i + j == MirrorV(w, h, ch, n);
      } else if j <= n < j + ch {
        PixelDecode(w, ch, r, c, n - j);
        MirrorVBounds(w, h, ch, n);
        assert n - j + i == MirrorV(w, h, ch, n);
      }
    }
  }

  /** Finishing row r of the horizontal flip extends the flipped rows by one. */
  lemma RowStepH(b: seq<byte>, w: int, h: int, ch: int, r: int)
    requires w > 0 && h > 0 && ch > 0 && |b| == BufferSize(w, h, ch) && 0 <= r < h
    ensures FlippedColsH(FlippedRowsH(b, w, h, ch, r), w, h, ch, r, w / 2) == FlippedRowsH(b, w, h, ch, r + 1)
  {
    var s := FlippedRowsH(b, w, h, ch, r);
    var u := FlippedColsH(s, w, h, ch, r, w / 2);
    var v := FlippedRowsH(b, w, h, ch, r + 1);
    forall n | 0 <= n < |b|
      ensures u[n] == v[n]
    {
      MirrorHBounds(w, h, ch, n);
      PixelSplit(w, h, ch, n);
      PixelDecode(w, ch, Row(w, ch, n), w - 1 - Col(w, ch, n), Chan(ch, n));
      if Row(w, ch, n) == r && !(Col(w, ch, n) < w / 2 || Col(w, ch, n) > w - 1 - w / 2) {
        assert MirrorH(w, ch, n) == n;
      }
    }
  }

  /** Finishing the pair of rows r and h-1-r of the vertical flip extends the flipped rows by one at each end. */
  lemma RowStepV(b: seq<byte>, w: int, h: int, ch: int, r: int)
    requires w > 0 && h > 0 && ch > 0 && |b| == BufferSize(w, h, ch) && 0 <= r < h / 2
    ensures FlippedColsV(FlippedRowsV(b, w, h, ch, r), w, h, ch, r, w) == FlippedRowsV(b, w, h, ch, r + 1)
  {
    var s := FlippedRowsV(b, w, h, ch, r);
    var u := FlippedColsV(s, w, h, ch, r, w);
    var v := FlippedRowsV(b, w, h, ch, r + 1);
    forall n | 0 <= n < |b|
      ensures u[n] == v[n]
    {
      MirrorVBounds(w, h, ch, n);
      PixelSplit(w, h, ch, n);
      PixelDecode(w, ch, h - 1 - Row(w, ch, n), Col(w, ch, n), Chan(ch, n));
    }
  }

  /** No rows flipped is the buffer itself; all rows flipped is the horizontal flip. */
  lemma RowsHEnds(b: seq<byte>, w: int, h: int, ch: int)
    requires w > 0 && h > 0 && ch > 0 && |b| == BufferSize(w, h, ch)
    ensures FlippedRowsH(b, w, h, ch, 0) == b
    ensures FlippedRowsH(b, w, h, ch, h) == FlipHOf(b, w, h, ch)
  {
    forall n | 0 <= n < |b|
      ensures FlippedRowsH(b, w, h, ch, 0)[n] == b[n]
      ensures FlippedRowsH(b, w, h, ch, h)[n] == FlipHOf(b, w, h, ch)[n]
    {
      PixelSplit(w, h, ch, n);
    }
  }

  /** No rows exchanged is the buffer itself; half the rows exchanged is the vertical flip. */
  lemma RowsVEnds(b: seq<byte>, w: int, h: int, ch: int)
    requires w > 0 && h > 0 && ch > 0 && |b| == BufferSize(w, h, ch)
    ensures FlippedRowsV(b, w, h, ch, 0) == b
    ensures FlippedRowsV(b, w, h, ch, h / 2) == FlipVOf(b, w, h, ch)
  {
    forall n | 0 <= n < |b|
      ensures FlippedRowsV(b, w, h, ch, 0)[n] == b[n]
      ensures FlippedRowsV(b, w, h, ch, h / 2)[n] == FlipVOf(b, w, h, ch)[n]
    {
      PixelSplit(w, h, ch, n);
      MirrorVBounds(w, h, ch, n);
      if h / 2 <= Row(w, ch, n) <= h - 1 - h / 2 {
        assert MirrorV(w, h, ch, n) == n;
      }
    }
  }

  lemma ColsHNone(b: seq<byte>, w: int, h: int, ch: int, r: int)
    requires w > 0 && h > 0 && ch > 0 && |b| == BufferSize(w, h, ch)
    ensures FlippedColsH(b, w, h, ch, r, 0) == b
  {
    forall n | 0 <= n < |b|
      ensures FlippedColsH(b, w, h, ch, r, 0)[n] == b[n]
    {
      PixelSplit(w, h, ch, n);
    }
  }

  lemma ColsVNone(b: seq<byte>, w: int, h: int, ch: int, r: int)
    requires w > 0 && h > 0 && ch > 0 && |b| == BufferSize(w, h, ch)
    ensures FlippedColsV(b, w, h, ch, r, 0) == b
  {
    forall n | 0 <= n < |b|
      ensures FlippedColsV(b, w, h, ch, r, 0)[n] == b[n]
    {
      PixelSplit(w, h, ch, n);
    }
  }

  // ---------------------------------------------------------------------
  // The image object
  // ---------------------------------------------------------------------

  class Image {
    const width: int
    const height: int
    const channels: int
    const buffer: array<byte>

    ghost predicate Valid()
      reads this
    {
      width > 0 && height > 0 && 1 <= channels <= 4 && buffer.Length == BufferSize(width, height, channels)
    }

    /** image_create: a zeroed buffer of width * height * channels bytes. */
    constructor (w: int, h: int, ch: int)
      requires w > 0 && h > 0 && 1 <= ch <= 4
      ensures Valid() && width == w && height == h && channels == ch && fresh(buffer)
      ensures forall n :: 0 <= n < buffer.Length ==> buffer[n] == 0
    {
      width, height, channels := w, h, ch;
      MulLeq(0, w * h, ch);
      buffer := new byte[BufferSize(w, h, ch)](_ => 0);
    }

    /** The ch bytes from position i exchanged with the ch bytes from position j, one swap_bytes per channel. */
    method SwapPixels(i: int, j: int)
      requires Valid() && 0 <= i && i + channels <= j && j + channels <= buffer.Length
      modifies buffer
      ensures buffer[..] == SwappedPixels(old(buffer[..]), i, j, channels)
    {
      ghost var b0 := buffer[..];
      var k := 0;
      while k < channels
        invariant 0 <= k <= channels
        invariant buffer[..] == SwappedPixels(b0, i, j, k)
      {
        SwapStep(b0, i, j, k, channels);
        buffer[i + k], buffer[j + k] := buffer[j + k], buffer[i + k];
        k := k + 1;
      }
    }

    /** image_flip_h: every row reversed pixel by pixel, each pixel's channels kept in order. */
    method FlipH()
      requires Valid()
      modifies buffer
      ensures buffer[..] == FlipHOf(old(buffer[..]), width, height, channels)
    {
      ghost var b0 := buffer[..];
      RowsHEnds(b0, width, height, channels);
      var halfWidth := width / 2;
      var r := 0;
      while r < height
        invariant 0 <= r <= height
        invariant buffer[..] == FlippedRowsH(b0, width, height, channels, r)
      {
        FlipRowH(r);
        RowStepH(b0, width, height, channels, r);
        r := r + 1;
      }
    }

    /** One row of image_flip_h: pixel c exchanged with pixel width-1-c for c below width/2. */
    method FlipRowH(r: int)
      requires Valid() && 0 <= r < height
      modifies buffer
      ensures buffer[..] == FlippedColsH(old(buffer[..]), width, height, channels, r, width / 2)
    {
      ghost var b0 := buffer[..];
      ColsHNone(b0, width, height, channels, r);
      var halfWidth := width / 2;
      var c := 0;
      while c < halfWidth
        invariant 0 <= c <= halfWidth
        invariant buffer[..] == FlippedColsH(b0, width, height, channels, r, c)
      {
        var flippedC := width - 1 - c;
        var pixel1 := r * width * channels + c * channels;
        var pixel2 := r * width * channels + flippedC * channels;
        PixelIndexBounds(width, height, channels, r, c, 0);
        PixelIndexBounds(width, height, channels, r, flippedC, channels - 1);
        PixelsApart(width, channels, r, c, r, flippedC);
        SwapPixels(pixel1, pixel2);
        ColStepH(b0, width, height, channels, r, c);
        c := c + 1;
      }
    }

    /** image_flip_v: row r exchanged with row height-1-r for r below height/2. */
    method FlipV()
      requires Valid()
      modifies buffer
      ensures buffer[..] == FlipVOf(old(buffer[..]), width, height, channels)
    {
      ghost var b0 := buffer[..];
      RowsVEnds(b0, width, height, channels);
      var halfHeight := height / 2;
      var r := 0;
      while r < halfHeight
        invariant 0 <= r <= halfHeight
        invariant buffer[..] == FlippedRowsV(b0, width, height, channels, r)
      {
        FlipRowV(r);
        RowStepV(b0, width, height, channels, r);
        r := r + 1;
      }
    }

    /** One pair of rows of image_flip_v: pixel (r, c) exchanged with (height-1-r, c) for every c. */
    method FlipRowV(r: int)
      requires Valid() && 0 <= r < height / 2
      modifies buffer
      ensures buffer[..] == FlippedColsV(old(buffer[..]), width, height, channels, r, width)
    {
      ghost var b0 := buffer[..];
      ColsVNone(b0, width, height, channels, r);
      var c := 0;
      while c < width
        invariant 0 <= c <= width
        invariant buffer[..] == FlippedColsV(b0, width, height, channels, r, c)
      {
        var flippedR := height - 1 - r;
        var pixel1 := r * width * channels + c * channels;
        var pixel2 := flippedR * width * channels + c * channels;
        PixelIndexBounds(width, height, channels, r, c, 0);
        PixelIndexBounds(width, height, channels, flippedR, c, channels - 1);
        PixelsApart(width, channels, r, c, flippedR, c);
        SwapPixels(pixel1, pixel2);
        ColStepV(b0, width, height, channels, r, c);
        c := c + 1;
      }
    }
  }
}
