/**
 * The framebuffer: a width x height array of RGBA pixels, its creation and
 * clearing, the rectangular copy between two buffers, single-pixel writes
 * and blends, the clamped bounding boxes of the shapes and the drawing
 * loops that blend every pixel of such a box.
 *
 * Colours are records of real numbers; how far a shape covers a pixel
 * (the signed-distance part) is a parameter of the drawing loops.
 */
module Graphics {
  import opened Indexing

  /** An RGBA pixel (vec4). */
  datatype Color = Color(x: real, y: real, z: real, w: real)

  /** An RGB colour (vec3). */
  datatype Rgb = Rgb(r: real, g: real, b: real)

  /** An inclusive box of columns x0..x1 and rows y0..y1 (ivec4 x, y, z, w). */
  datatype Rect = Rect(x0: int, x1: int, y0: int, y1: int)

  /** Opaque black, the colour of a fresh framebuffer. */
  const DefaultColor := Color(0.0, 0.0, 0.0, 1.0)

  predicate InRect(r: Rect, x: int, y: int)
  {
    r.x0 <= x <= r.x1 && r.y0 <= y <= r.y1
  }

  predicate Empty(r: Rect)
  {
    r.x0 > r.x1 || r.y0 > r.y1
  }

  // ---------------------------------------------------------------------
  // Rectangular copy
  // ---------------------------------------------------------------------

  /** Index i of a buffer with the given stride lies in the box. */
  predicate Covered(r: Rect, stride: int, i: int)
    requires stride > 0
  {
    InRect(r, i % stride, i / stride)
  }

  /** Every pixel x + y * stride of the box is an index of a buffer of n pixels. */
  predicate Fits(r: Rect, stride: int, n: int)
  {
    Empty(r) || (0 <= r.x0 && r.x1 < stride && 0 <= r.y0 && (r.y1 + 1) * stride <= n)
  }

  /** The buffer `a` with every pixel of the box taken from `b`. */
  function CopyRect(a: seq<Color>, b: seq<Color>, r: Rect, stride: int): (c: seq<Color>)
    requires stride > 0
    ensures |c| == |a|
  {
    seq(|a|, i requires 0 <= i < |a| => if Covered(r, stride, i) && i < |b| then b[i] else a[i])
  }

  /** Index i of a buffer with the given stride lies in row y, columns x0..x1. */
  predicate InRow(y: int, x0: int, x1: int, stride: int, i: int)
    requires stride > 0
  {
    i / stride == y && x0 <= i % stride <= x1
  }

  /** The buffer `a` with columns x0..x1 of row y taken from `b`. */
  function RowCopy(a: seq<Color>, b: seq<Color>, y: int, x0: int, x1: int, stride: int): (c: seq<Color>)
    requires stride > 0
    ensures |c| == |a|
  {
    seq(|a|, i requires 0 <= i < |a| => if InRow(y, x0, x1, stride, i) && i < |b| then b[i] else a[i])
  }

  /** Copying one more pixel extends the copied part of the row by one column. */
  lemma RowCopyStep(a: seq<Color>, b: seq<Color>, y: int, x0: int, x: int, stride: int)
    requires stride > 0 && x0 <= x && 0 <= x < stride && 0 <= Index(stride, y, x) < |a| && Index(stride, y, x) < |b|
    ensures RowCopy(a, b, y, x0, x - 1, stride)[Index(stride, y, x) := b[Index(stride, y, x)]] ==
            RowCopy(a, b, y, x0, x, stride)
  {
    var j := Index(stride, y, x);
    IndexDecode(stride, y, x);
    var u := RowCopy(a, b, y, x0, x - 1, stride)[j := b[j]];
    var v := RowCopy(a, b, y, x0, x, stride);
    forall i | 0 <= i < |a|
      ensures u[i] == v[i]
    {
      if i != j && InRow(y, x0, x, stride, i) {
        assert i == i / stride * stride + i % stride;
      }
    }
  }

  /** Copying one more row extends the copied part of the box by one row. */
  lemma CopyRectStep(a: seq<Color>, b: seq<Color>, r: Rect, stride: int, y: int)
    requires stride > 0 && |a| == |b| && r.y0 <= y
    ensures RowCopy(CopyRect(a, b, Rect(r.x0, r.x1, r.y0, y - 1), stride), b, y, r.x0, r.x1, stride) ==
            CopyRect(a, b, Rect(r.x0, r.x1, r.y0, y), stride)
  {
    var u := RowCopy(CopyRect(a, b, Rect(r.x0, r.x1, r.y0, y - 1), stride), b, y, r.x0, r.x1, stride);
    var v := CopyRect(a, b, Rect(r.x0, r.x1, r.y0, y), stride);
    forall i | 0 <= i < |a|
      ensures u[i] == v[i]
    {
    }
  }

  /** Copying a buffer onto itself changes nothing. */
  lemma CopyRectSelf(a: seq<Color>, r: Rect, stride: int)
    requires stride > 0
    ensures CopyRect(a, a, r, stride) == a
  {
  }

  /**
   * framebuffer_copy: a[x + y * stride] := b[x + y * stride] for every
   * (x, y) of the box, row by row. `stride` is the window width.
   */
  method Copy(a: Framebuffer, b: Framebuffer, r: Rect, stride: int)
    requires a.Valid() && b.Valid() && stride > 0 && a.colorbuffer.Length == b.colorbuffer.Length
    requires Fits(r, stride, a.colorbuffer.Length)
    modifies a.colorbuffer
    ensures a.colorbuffer[..] == CopyRect(old(a.colorbuffer[..]), old(b.colorbuffer[..]), r, stride)
    ensures b.colorbuffer != a.colorbuffer ==> b.colorbuffer[..] == old(b.colorbuffer[..])
  {
    ghost var a0, b0 := a.colorbuffer[..], b.colorbuffer[..];
    var y := r.y0;
    while y <= r.y1
      invariant r.y0 <= y <= if r.y0 <= r.y1 then r.y1 + 1 else r.y0
      invariant b.colorbuffer != a.colorbuffer ==> b.colorbuffer[..] == b0
      invariant a.colorbuffer[..] == CopyRect(a0, b0, Rect(r.x0, r.x1, r.y0, y - 1), stride)
    {
      if b.colorbuffer == a.colorbuffer {
        CopyRectSelf(a0, Rect(r.x0, r.x1, r.y0, y - 1), stride);
      }
      CopyRow(a, b, r, stride, y);
      CopyRectStep(a0, b0, r, stride, y);
      y := y + 1;
    }
    assert Rect(r.x0, r.x1, r.y0, y - 1) == r || (Empty(r) && Empty(Rect(r.x0, r.x1, r.y0, y - 1)));
    if Empty(r) {
      assert CopyRect(a0, b0, r, stride) == a0 == CopyRect(a0, b0, Rect(r.x0, r.x1, r.y0, y - 1), stride);
    }
  }

  /** One row of framebuffer_copy: columns x0..x1 of row y. */
  method CopyRow(a: Framebuffer, b: Framebuffer, r: Rect, stride: int, y: int)
    requires a.Valid() && b.Valid() && stride > 0 && r.y0 <= y <= r.y1 && a.colorbuffer.Length == b.colorbuffer.Length
    requires Fits(r, stride, a.colorbuffer.Length)
    modifies a.colorbuffer
    ensures b.colorbuffer != a.colorbuffer ==> b.colorbuffer[..] == old(b.colorbuffer[..])
    ensures a.colorbuffer[..] == RowCopy(old(a.colorbuffer[..]), old(b.colorbuffer[..]), y, r.x0, r.x1, stride)
  {
    ghost var a0, b0 := a.colorbuffer[..], b.colorbuffer[..];
    var x := r.x0;
    while x <= r.x1
      invariant r.x0 <= x <= if r.x0 <= r.x1 then r.x1 + 1 else r.x0
      invariant b.colorbuffer != a.colorbuffer ==> b.colorbuffer[..] == b0
      invariant b.colorbuffer == a.colorbuffer ==> a0 == b0
      invariant a.colorbuffer[..] == RowCopy(a0, b0, y, r.x0, x - 1, stride)
    {
      IndexBounds(stride, r.y1 + 1, y, x);
      IndexDecode(stride, y, x);
      RowCopyStep(a0, b0, y, r.x0, x, stride);
      a.colorbuffer[x + y * stride] := b.colorbuffer[x + y * stride];
      x := x + 1;
    }
    if r.x0 > r.x1 {
      assert RowCopy(a0, b0, y, r.x0, r.x1, stride) == a0 == RowCopy(a0, b0, y, r.x0, x - 1, stride);
    }
  }

  /** Copying over a box changes exactly the pixels of the box, each to the source's pixel. */
  lemma CopyRectAt(a: seq<Color>, b: seq<Color>, r: Rect, stride: int, x: int, y: int)
    requires stride > 0 && |a| == |b| && 0 <= x < stride && 0 <= Index(stride, y, x) < |a|
    ensures InRect(r, x, y) ==> CopyRect(a, b, r, stride)[Index(stride, y, x)] == b[Index(stride, y, x)]
    ensures !InRect(r, x, y) ==> CopyRect(a, b, r, stride)[Index(stride, y, x)] == a[Index(stride, y, x)]
  {
    IndexDecode(stride, y, x);
  }

  /**
   * Snapshot and restore: after tmp := copy of fb over a box, any changes
   * to fb inside the box only, and fb := copy of tmp over the same box,
   * fb is back to what it was before the snapshot.
   */
  lemma SnapshotRestore(fb0: seq<Color>, tmp0: seq<Color>, fb1: seq<Color>, r: Rect, stride: int)
    requires stride > 0 && |fb0| == |tmp0| == |fb1| && Fits(r, stride, |fb0|)
    requires forall i :: 0 <= i < |fb0| && !Covered(r, stride, i) ==> fb1[i] == fb0[i]
    ensures CopyRect(fb1, CopyRect(tmp0, fb0, r, stride), r, stride) == fb0
  {
  }

  /** Copying the same box back a second time changes nothing more. */
  lemma CopyIdempotent(a: seq<Color>, b: seq<Color>, r: Rect, stride: int)
    requires stride > 0
    ensures CopyRect(CopyRect(a, b, r, stride), b, r, stride) == CopyRect(a, b, r, stride)
  {
  }

  // ---------------------------------------------------------------------
  // Pixels
  // ---------------------------------------------------------------------

  /** The blend of a pixel's colour towards (r, g, b) by alpha; its w channel stays. */
  function Blend(c: Color, alpha: real, col: Rgb): Color
  {
    Color(c.x * (1.0 - alpha) + col.r * alpha, c.y * (1.0 - alpha) + col.g * alpha,
          c.z * (1.0 - alpha) + col.b * alpha, c.w)
  }

  /** Alpha 0 leaves a pixel as it is; alpha 1 replaces its colour and keeps w. */
  lemma BlendExtremes(c: Color, col: Rgb)
    ensures Blend(c, 0.0, col) == c
    ensures Blend(c, 1.0, col) == Color(col.r, col.g, col.b, c.w)
  {
  }

  // ---------------------------------------------------------------------
  // Bounding boxes
  // ---------------------------------------------------------------------

  /** The box (x0..x1, y0..y1) clamped to a ww x wh window. */
  function Clip(x0: int, x1: int, y0: int, y1: int, ww: int, wh: int): (r: Rect)
    ensures r.x0 >= 0 && r.y0 >= 0 && r.x1 <= ww - 1 && r.y1 <= wh - 1
    ensures forall x, y :: InRect(r, x, y) <==> InRect(Rect(x0, x1, y0, y1), x, y) && 0 <= x < ww && 0 <= y < wh
  {
    Rect(if x0 < 0 then 0 else x0, if x1 > ww - 1 then ww - 1 else x1,
         if y0 < 0 then 0 else y0, if y1 > wh - 1 then wh - 1 else y1)
  }

  /**
   * capsuleAABB, given the floor of min(ax, bx) - r, the ceiling of
   * max(ax, bx) + r and the same for y: exactly the window pixels between them.
   */
  function CapsuleAABB(loX: int, hiX: int, loY: int, hiY: int, ww: int, wh: int): (r: Rect)
    ensures r.x0 >= 0 && r.y0 >= 0 && r.x1 <= ww - 1 && r.y1 <= wh - 1
    ensures forall x, y :: InRect(r, x, y) <==> loX <= x <= hiX && loY <= y <= hiY && 0 <= x < ww && 0 <= y < wh
  {
    Clip(loX, hiX, loY, hiY, ww, wh)
  }

  /**
   * circleAABB, given the floor of cx - r, the ceiling of cx + r and the
   * same for y: the window pixels within one more pixel of them.
   */
  function CircleAABB(loX: int, hiX: int, loY: int, hiY: int, ww: int, wh: int): (r: Rect)
    ensures r.x0 >= 0 && r.y0 >= 0 && r.x1 <= ww - 1 && r.y1 <= wh - 1
    ensures forall x, y :: InRect(r, x, y) <==> loX - 1 <= x <= hiX + 1 && loY - 1 <= y <= hiY + 1 && 0 <= x < ww && 0 <= y < wh
  {
    Clip(loX - 1, hiX + 1, loY - 1, hiY + 1, ww, wh)
  }

  /**
   * boxAABB, given the floor and ceiling of the rotated half extents
   * around the centre: the window pixels within one more pixel of them.
   * It is kept apart from CircleAABB because the source computes its
   * bounds differently (from rotated half extents rather than a radius);
   * once those bounds are parameters, the widening and the clamp coincide.
   */
  function BoxAABB(loX: int, hiX: int, loY: int, hiY: int, ww: int, wh: int): (r: Rect)
    ensures r.x0 >= 0 && r.y0 >= 0 && r.x1 <= ww - 1 && r.y1 <= wh - 1
    ensures forall x, y :: InRect(r, x, y) <==> loX - 1 <= x <= hiX + 1 && loY - 1 <= y <= hiY + 1 && 0 <= x < ww && 0 <= y < wh
  {
    Clip(loX - 1, hiX + 1, loY - 1, hiY + 1, ww, wh)
  }

  // ---------------------------------------------------------------------
  // Drawing
  // ---------------------------------------------------------------------

  /**
   * Pixel (x, y) of a drawing loop is written at x + (y - 1) * width,
   * so index i holds the loop's pixel (i % width, i / width + 1).
   */
  predicate DrawnAt(r: Rect, width: int, i: int)
    requires width > 0
  {
    InRect(r, i % width, i / width + 1)
  }

  /** Every pixel of the box is inside the buffer; a non-empty box starts at row 1 or below. */
  predicate DrawFits(r: Rect, width: int, height: int)
  {
    Empty(r) || (0 <= r.x0 && r.x1 < width && 1 <= r.y0 && r.y1 <= height)
  }

  /** The buffer after blending each pixel of the box by its coverage. */
  function Drawn(c: seq<Color>, r: Rect, width: int, coverage: (int, int) -> real, col: Rgb): (d: seq<Color>)
    requires width > 0
    ensures |d| == |c|
  {
    seq(|c|, i requires 0 <= i < |c| =>
      if DrawnAt(r, width, i) then Blend(c[i], coverage(i % width, i / width + 1), col) else c[i])
  }

  /** The buffer `c` with columns x0..x1 of loop row y blended, each by its coverage. */
  function DrawnRow(c: seq<Color>, y: int, x0: int, x1: int, width: int, coverage: (int, int) -> real, col: Rgb): (d: seq<Color>)
    requires width > 0
    ensures |d| == |c|
  {
    seq(|c|, i requires 0 <= i < |c| =>
      if InRow(y - 1, x0, x1, width, i) then Blend(c[i], coverage(i % width, y), col) else c[i])
  }

  /** Blending no columns changes nothing. */
  lemma DrawnRowNone(c: seq<Color>, y: int, x0: int, x1: int, width: int, coverage: (int, int) -> real, col: Rgb)
    requires width > 0 && x0 > x1
    ensures DrawnRow(c, y, x0, x1, width, coverage, col) == c
  {
    var d := DrawnRow(c, y, x0, x1, width, coverage, col);
    forall i | 0 <= i < |c|
      ensures d[i] == c[i]
    {
      assert !InRow(y - 1, x0, x1, width, i);
    }
  }

  /** Blending one more pixel extends the blended part of the row by one column. */
  lemma DrawnRowStep(c: seq<Color>, y: int, x0: int, x: int, width: int, coverage: (int, int) -> real, col: Rgb)
    requires width > 0 && x0 <= x && 0 <= x < width && 0 <= Index(width, y - 1, x) < |c|
    ensures DrawnRow(c, y, x0, x - 1, width, coverage, col)[Index(width, y - 1, x) := Blend(c[Index(width, y - 1, x)], coverage(x, y), col)] ==
            DrawnRow(c, y, x0, x, width, coverage, col)
  {
    var j := Index(width, y - 1, x);
    IndexDecode(width, y - 1, x);
    var u := DrawnRow(c, y, x0, x - 1, width, coverage, col)[j := Blend(c[j], coverage(x, y), col)];
    var v := DrawnRow(c, y, x0, x, width, coverage, col);
    forall i | 0 <= i < |c|
      ensures u[i] == v[i]
    {
      if i == j {
        assert InRow(y - 1, x0, x, width, i);
      } else if InRow(y - 1, x0, x, width, i) {
        assert i == i / width * width + i % width;
        assert i % width != x;
        assert InRow(y - 1, x0, x - 1, width, i);
      } else {
        assert !InRow(y - 1, x0, x - 1, width, i);
      }
    }
  }

  /** Blending one more row extends the blended part of the box by one row. */
  lemma DrawnStep(c: seq<Color>, r: Rect, width: int, coverage: (int, int) -> real, col: Rgb, y: int)
    requires width > 0 && r.y0 <= y
    ensures DrawnRow(Drawn(c, Rect(r.x0, r.x1, r.y0, y - 1), width, coverage, col), y, r.x0, r.x1, width, coverage, col) ==
            Drawn(c, Rect(r.x0, r.x1, r.y0, y), width, coverage, col)
  {
    var u := DrawnRow(Drawn(c, Rect(r.x0, r.x1, r.y0, y - 1), width, coverage, col), y, r.x0, r.x1, width, coverage, col);
    var d := Drawn(c, Rect(r.x0, r.x1, r.y0, y - 1), width, coverage, col);
    var v := Drawn(c, Rect(r.x0, r.x1, r.y0, y), width, coverage, col);
    forall i | 0 <= i < |c|
      ensures u[i] == v[i]
    {
      if InRow(y - 1, r.x0, r.x1, width, i) {
        assert d[i] == c[i];
        assert DrawnAt(Rect(r.x0, r.x1, r.y0, y), width, i);
      } else {
        assert DrawnAt(Rect(r.x0, r.x1, r.y0, y), width, i) == DrawnAt(Rect(r.x0, r.x1, r.y0, y - 1), width, i);
      }
    }
  }

  /**
   * Drawing writes only the box shifted up one row: in the layout the copy
   * uses (x + y * width) the pixels it blends are those of rows y0-1..y1-1,
   * and no pixel's w channel changes.
   */
  lemma DrawnFootprint(c: seq<Color>, r: Rect, width: int, coverage: (int, int) -> real, col: Rgb)
    requires width > 0
    ensures forall i :: 0 <= i < |c| && Drawn(c, r, width, coverage, col)[i] != c[i] ==>
              Covered(Rect(r.x0, r.x1, r.y0 - 1, r.y1 - 1), width, i)
    ensures forall i :: 0 <= i < |c| ==> Drawn(c, r, width, coverage, col)[i].w == c[i].w
  {
  }

  /**
   * The mouse's snapshot-draw-restore sequence: the snapshot and the
   * restore cover the copy box `r`; the drawing blends the pixels of its
   * own box `d`, each at one row up. The restore brings the buffer back
   * exactly when every pixel of `d` that would land outside `r` gets zero
   * coverage; in particular when `d` shifted one row up lies inside `r`.
   */
  lemma DrawThenRestore(fb0: seq<Color>, tmp0: seq<Color>, r: Rect, d: Rect, width: int,
                        coverage: (int, int) -> real, col: Rgb)
    requires width > 0 && |fb0| == |tmp0| && Fits(r, width, |fb0|)
    requires forall x, y :: InRect(d, x, y) && !InRect(r, x, y - 1) ==> coverage(x, y) == 0.0
    ensures CopyRect(Drawn(fb0, d, width, coverage, col), CopyRect(tmp0, fb0, r, width), r, width) == fb0
  {
    var fb1 := Drawn(fb0, d, width, coverage, col);
    forall i | 0 <= i < |fb0| && !Covered(r, width, i)
      ensures fb1[i] == fb0[i]
    {
      if DrawnAt(d, width, i) {
        assert !InRect(r, i % width, i / width + 1 - 1);
        BlendExtremes(fb0[i], col);
      }
    }
    SnapshotRestore(fb0, tmp0, fb1, r, width);
  }

  /** The containment case: a drawing box that, one row up, lies inside the copy box is restored. */
  lemma DrawInsideThenRestore(fb0: seq<Color>, tmp0: seq<Color>, r: Rect, d: Rect, width: int,
                              coverage: (int, int) -> real, col: Rgb)
    requires width > 0 && |fb0| == |tmp0| && Fits(r, width, |fb0|)
    requires Empty(d) || (r.x0 <= d.x0 && d.x1 <= r.x1 && r.y0 <= d.y0 - 1 && d.y1 - 1 <= r.y1)
    ensures CopyRect(Drawn(fb0, d, width, coverage, col), CopyRect(tmp0, fb0, r, width), r, width) == fb0
  {
    DrawThenRestore(fb0, tmp0, r, d, width, coverage, col);
  }

  /**
   * A box that is drawn at the very box that was copied is restored when its
   * first row gets no coverage: that row is written one row above the copy.
   */
  lemma DrawSameBoxThenRestore(fb0: seq<Color>, tmp0: seq<Color>, r: Rect, width: int,
                               coverage: (int, int) -> real, col: Rgb)
    requires width > 0 && |fb0| == |tmp0| && Fits(r, width, |fb0|)
    requires forall x :: coverage(x, r.y0) == 0.0
    ensures CopyRect(Drawn(fb0, r, width, coverage, col), CopyRect(tmp0, fb0, r, width), r, width) == fb0
  {
    DrawThenRestore(fb0, tmp0, r, r, width, coverage, col);
  }

  /**
   * The restore is not exact in general: a drawing box that leaves the copy
   * box with nonzero coverage (as a moving mouse's circle can) leaves a
   * changed pixel behind.
   */
  lemma DrawOutsideNotRestored(width: int, col: Rgb)
    requires width == 2 && col.r == 1.0
    ensures var fb0 := seq(4, i => DefaultColor);
            var r, d := Rect(0, 0, 0, 0), Rect(1, 1, 1, 1);
            CopyRect(Drawn(fb0, d, width, (x, y) => 1.0, col), CopyRect(fb0, fb0, r, width), r, width)[1] != fb0[1]
  {
    var fb0 := seq(4, i => DefaultColor);
    var r, d := Rect(0, 0, 0, 0), Rect(1, 1, 1, 1);
    var fb1 := Drawn(fb0, d, width, (x, y) => 1.0, col);
    assert DrawnAt(d, width, 1);
    assert fb1[1].x == 1.0;
    CopyRectAt(fb1, CopyRect(fb0, fb0, r, width), r, width, 1, 0);
  }

  // ---------------------------------------------------------------------
  // The framebuffer object
  // ---------------------------------------------------------------------

  class Framebuffer {
    const width: int
    const height: int
    const colorbuffer: array<Color>

    ghost predicate Valid()
      reads this
    {
      width > 0 && height > 0 && colorbuffer.Length == width * height
    }

    /** framebuffer_create: width * height pixels, all opaque black. */
    constructor (w: int, h: int)
      requires w > 0 && h > 0
      ensures Valid() && width == w && height == h && fresh(colorbuffer)
      ensures forall i :: 0 <= i < colorbuffer.Length ==> colorbuffer[i] == DefaultColor
    {
      width, height := w, h;
      colorbuffer := new Color[w * h];
      new;
      ClearColor(DefaultColor);
    }

    /** Every pixel becomes `color`. */
    method ClearColor(color: Color)
      requires Valid()
      modifies colorbuffer
      ensures forall i :: 0 <= i < colorbuffer.Length ==> colorbuffer[i] == color
    {
      var numElems := width * height;
      var i := 0;
      while i < numElems
        invariant 0 <= i <= numElems
        invariant forall j :: 0 <= j < i ==> colorbuffer[j] == color
      {
        colorbuffer[i] := color;
        i := i + 1;
      }
    }

    /** set_pixel: pixel x + (y - 1) * width becomes (r, g, b) with w = 1; nothing else changes. */
    method SetPixel(x: int, y: int, col: Rgb)
      requires Valid() && 0 <= x + (y - 1) * width < colorbuffer.Length
      modifies colorbuffer
      ensures colorbuffer[..] == old(colorbuffer[..])[x + (y - 1) * width := Color(col.r, col.g, col.b, 1.0)]
    {
      var iter := x + (y - 1) * width;
      colorbuffer[iter] := Color(col.r, col.g, col.b, 1.0);
    }

    /** alpha_blend: pixel x + (y - 1) * width is blended by alpha; its w and every other pixel stay. */
    method AlphaBlend(x: int, y: int, alpha: real, col: Rgb)
      requires Valid() && 0 <= x + (y - 1) * width < colorbuffer.Length
      modifies colorbuffer
      ensures colorbuffer[..] == old(colorbuffer[..])[x + (y - 1) * width := Blend(old(colorbuffer[x + (y - 1) * width]), alpha, col)]
    {
      var iter := x + (y - 1) * width;
      colorbuffer[iter] := Blend(colorbuffer[iter], alpha, col);
    }

    /** The loop of every draw_*: blend each pixel (x, y) of the box by its coverage, row by row. */
    method DrawCoverage(r: Rect, coverage: (int, int) -> real, col: Rgb)
      requires Valid() && DrawFits(r, width, height)
      modifies colorbuffer
      ensures colorbuffer[..] == Drawn(old(colorbuffer[..]), r, width, coverage, col)
    {
      ghost var c0 := colorbuffer[..];
      var y := r.y0;
      while y <= r.y1
        invariant r.y0 <= y <= if r.y0 <= r.y1 then r.y1 + 1 else r.y0
        invariant colorbuffer[..] == Drawn(c0, Rect(r.x0, r.x1, r.y0, y - 1), width, coverage, col)
      {
        DrawRow(r, y, coverage, col);
        DrawnStep(c0, r, width, coverage, col, y);
        y := y + 1;
      }
      assert Rect(r.x0, r.x1, r.y0, y - 1) == r || (Empty(r) && Empty(Rect(r.x0, r.x1, r.y0, y - 1)));
      if Empty(r) {
        assert Drawn(c0, r, width, coverage, col) == c0 == Drawn(c0, Rect(r.x0, r.x1, r.y0, y - 1), width, coverage, col);
      }
    }

    /** One row of the drawing loop: pixels x0..x1 of loop row y. */
    method DrawRow(r: Rect, y: int, coverage: (int, int) -> real, col: Rgb)
      requires Valid() && DrawFits(r, width, height) && r.y0 <= y <= r.y1
      modifies colorbuffer
      ensures colorbuffer[..] == DrawnRow(old(colorbuffer[..]), y, r.x0, r.x1, width, coverage, col)
    {
      ghost var c0 := colorbuffer[..];
      var x := r.x0;
      DrawnRowNone(c0, y, r.x0, x - 1, width, coverage, col);
      while x <= r.x1
        invariant r.x0 <= x <= if r.x0 <= r.x1 then r.x1 + 1 else r.x0
        invariant colorbuffer[..] == DrawnRow(c0, y, r.x0, x - 1, width, coverage, col)
      {
        IndexBounds(width, height, y - 1, x);
        IndexDecode(width, y - 1, x);
        DrawnRowStep(c0, y, r.x0, x, width, coverage, col);
        AlphaBlend(x, y, coverage(x, y), col);
        x := x + 1;
      }
      if r.x0 > r.x1 {
        DrawnRowNone(c0, y, r.x0, r.x1, width, coverage, col);
      }
    }

    /**
     * draw_line, draw_circle, draw_box and draw_filleted_box: the drawing
     * loop over the clamped bounding box of the shape, with `coverage` the
     * clamped 0.5 - distance of the shape at each pixel. The window is the
     * framebuffer itself.
     */
    method DrawLine(loX: int, hiX: int, loY: int, hiY: int, coverage: (int, int) -> real, col: Rgb)
      requires Valid() && DrawFits(CapsuleAABB(loX, hiX, loY, hiY, width, height), width, height)
      modifies colorbuffer
      ensures colorbuffer[..] == Drawn(old(colorbuffer[..]), CapsuleAABB(loX, hiX, loY, hiY, width, height), width, coverage, col)
    {
      DrawCoverage(CapsuleAABB(loX, hiX, loY, hiY, width, height), coverage, col);
    }

    method DrawCircle(loX: int, hiX: int, loY: int, hiY: int, coverage: (int, int) -> real, col: Rgb)
      requires Valid() && DrawFits(CircleAABB(loX, hiX, loY, hiY, width, height), width, height)
      modifies colorbuffer
      ensures colorbuffer[..] == Drawn(old(colorbuffer[..]), CircleAABB(loX, hiX, loY, hiY, width, height), width, coverage, col)
    {
      DrawCoverage(CircleAABB(loX, hiX, loY, hiY, width, height), coverage, col);
    }

    /** Both box shapes: the filleted box differs only in its coverage. */
    method DrawBox(loX: int, hiX: int, loY: int, hiY: int, coverage: (int, int) -> real, col: Rgb)
      requires Valid() && DrawFits(BoxAABB(loX, hiX, loY, hiY, width, height), width, height)
      modifies colorbuffer
      ensures colorbuffer[..] == Drawn(old(colorbuffer[..]), BoxAABB(loX, hiX, loY, hiY, width, height), width, coverage, col)
    {
      DrawCoverage(BoxAABB(loX, hiX, loY, hiY, width, height), coverage, col);
    }
  }
}
