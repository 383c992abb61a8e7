/** The double-buffered renderer (kernel/src/basic_renderer.cpp, kernel/src/basic_renderer.h).

    Drawing goes to the Target framebuffer; `Swap` copies a rectangle of it to the Render framebuffer, the one
    on screen.  Both are rows of pixels, `stride` apart, of which the first `width` are visible. */
module Renderer {
  import opened Basics

  type Pixel = n: int | 0 <= n < 0x1_0000_0000

  datatype Vec = Vec(x: nat, y: nat)

  datatype Rect = Rect(x: nat, y: nat, w: nat, h: nat)

  predicate Inside(r: Rect, x: int, y: int) {
    r.x <= x < r.x + r.w && r.y <= y < r.y + r.h
  }

  /** A 64-bit size stored in a 32-bit variable. */
  function Low32(n: nat): nat { n % 0x1_0000_0000 }

  function Min(a: nat, b: nat): nat { if b < a then b else a }

  /** The rectangle at `position` of the given size, cut down to the screen. */
  function Clip(width: nat, height: nat, position: Vec, size: Vec): Rect {
    var x, y := Min(position.x, width), Min(position.y, height);
    Rect(x, y, Min(size.x, width - x), Min(size.y, height - y))
  }

  /** What clipping means: the pixels of the rectangle that are on screen, those and no others. */
  lemma ClipMeaning(width: nat, height: nat, position: Vec, size: Vec, x: nat, y: nat)
    ensures Inside(Clip(width, height, position, size), x, y) <==>
            x < width && y < height && Inside(Rect(position.x, position.y, size.x, size.y), x, y)
  {}

  // ------------------------------------------------- coordinates and offsets

  function Index(x: nat, y: nat, stride: nat): nat {
    x + y * stride
  }

  function Column(k: nat, stride: nat): nat {
    if stride == 0 then 0 else k % stride
  }

  function Row(k: nat, stride: nat): nat {
    if stride == 0 then 0 else k / stride
  }

  lemma IndexInverse(x: nat, y: nat, stride: nat)
    requires x < stride
    ensures Column(Index(x, y, stride), stride) == x && Row(Index(x, y, stride), stride) == y
  {
    var k := Index(x, y, stride);
    var q, c := Row(k, stride), Column(k, stride);
    assert k == c + q * stride;
    Unique(x, y, c, q, stride);
  }

  lemma Unique(x: nat, y: nat, c: nat, q: nat, stride: nat)
    requires x < stride && c < stride && x + y * stride == c + q * stride
    ensures x == c && y == q
  {
    RowsApart(y, q, stride);
    RowsApart(q, y, stride);
  }

  lemma RowsApart(y: nat, q: nat, stride: nat)
    ensures y < q ==> y * stride + stride <= q * stride
  {
    if y < q {
      var d := q - y - 1;
      assert q == y + 1 + d;
      assert (y + 1 + d) * stride == y * stride + stride + d * stride;
    }
  }

  lemma AtIndex(k: nat, stride: nat)
    requires stride > 0
    ensures Index(Column(k, stride), Row(k, stride), stride) == k && Column(k, stride) < stride
  {}

  lemma IndexBound(x: nat, y: nat, stride: nat, height: nat)
    requires x < stride && y < height
    ensures Index(x, y, stride) < stride * height
  {
    RowsApart(y, height, stride);
  }

  // ------------------------------------------------------------ what is drawn

  /** What the four drawing operations put at (dx, dy) of their rectangle. */
  datatype Brush =
    | Solid(color: Pixel)
    | Image(pixels: seq<Pixel>, pitch: nat)
    | Bitmap(bits: seq<bv8>, pitch: nat, color: Pixel, background: Pixel)
    | Overlay(bits: seq<bv8>, pitch: nat, color: Pixel)

  /** A `const u8*`. */
  datatype Memory = Null | Bytes(bytes: seq<bv8>)

  /** The byte of a bitmap that holds (dx, dy). */
  function ByteAt(dx: nat, dy: nat, pitch: nat): nat {
    Index(dx, dy, pitch) / 8
  }

  /** Its bit, the leftmost pixel in the highest one. */
  predicate BitSet(b: bv8, dx: nat) {
    b & (0x80 >> (dx % 8)) != 0
  }

  /** Byte numbers are kept in a signed 32-bit variable. */
  const BYTE_LIMIT: nat := 0x8000_0000

  /** The brush has data for every pixel of the rectangle. */
  predicate Covers(brush: Brush, w: nat, h: nat) {
    match brush
    case Solid(_) => true
    case Image(pixels, pitch) => forall dx, dy :: 0 <= dx < w && 0 <= dy < h ==> Index(dx, dy, pitch) < |pixels|
    case Bitmap(bits, pitch, _, _) =>
      forall dx, dy :: 0 <= dx < w && 0 <= dy < h ==>
        ByteAt(dx, dy, pitch) < |bits| && ByteAt(dx, dy, pitch) < BYTE_LIMIT
    case Overlay(bits, pitch, _) =>
      forall dx, dy :: 0 <= dx < w && 0 <= dy < h ==>
        ByteAt(dx, dy, pitch) < |bits| && ByteAt(dx, dy, pitch) < BYTE_LIMIT
  }

  function Paint(brush: Brush, w: nat, h: nat, dx: nat, dy: nat, under: Pixel): Pixel
    requires Covers(brush, w, h) && dx < w && dy < h
  {
    match brush
    case Solid(color) => color
    case Image(pixels, pitch) => pixels[Index(dx, dy, pitch)]
    case Bitmap(bits, pitch, color, background) =>
      if BitSet(bits[ByteAt(dx, dy, pitch)], dx) then color else background
    case Overlay(bits, pitch, color) =>
      if BitSet(bits[ByteAt(dx, dy, pitch)], dx) then color else under
  }

  /** `k` is the offset of a pixel of `r` that comes before (x, y), row by row. */
  predicate Before(r: Rect, stride: nat, k: nat, x: nat, y: nat) {
    var c, q := Column(k, stride), Row(k, stride);
    Inside(r, c, q) && (q < y || (q == y && c < x))
  }

  /** The buffer `was`, with the pixels of `r` before (x, y) painted over. */
  function PaintedTo(was: seq<Pixel>, stride: nat, r: Rect, brush: Brush, x: nat, y: nat): (now: seq<Pixel>)
    requires Covers(brush, r.w, r.h)
    ensures |now| == |was|
  {
    seq(|was|, k requires 0 <= k < |was| =>
          if Before(r, stride, k, x, y)
          then Paint(brush, r.w, r.h, Column(k, stride) - r.x, Row(k, stride) - r.y, was[k]) else was[k])
  }

  /** The buffer `was`, with `r` painted over. */
  function Painted(was: seq<Pixel>, stride: nat, r: Rect, brush: Brush): (now: seq<Pixel>)
    requires Covers(brush, r.w, r.h)
    ensures |now| == |was|
  {
    seq(|was|, k requires 0 <= k < |was| =>
          if Inside(r, Column(k, stride), Row(k, stride))
          then Paint(brush, r.w, r.h, Column(k, stride) - r.x, Row(k, stride) - r.y, was[k]) else was[k])
  }

  lemma PaintNone(was: seq<Pixel>, stride: nat, r: Rect, brush: Brush)
    requires Covers(brush, r.w, r.h)
    ensures PaintedTo(was, stride, r, brush, r.x, r.y) == was
  {
    hide Paint, Covers;
  }

  lemma PaintNext(was: seq<Pixel>, stride: nat, r: Rect, brush: Brush, x: nat, y: nat)
    requires Covers(brush, r.w, r.h) && Inside(r, x, y) && x < stride && Index(x, y, stride) < |was|
    ensures var i := Index(x, y, stride); var now := PaintedTo(was, stride, r, brush, x, y);
            && now[i] == was[i]
            && PaintedTo(was, stride, r, brush, x + 1, y) ==
               now[i := Paint(brush, r.w, r.h, x - r.x, y - r.y, was[i])]
  {
    var i, now := Index(x, y, stride), PaintedTo(was, stride, r, brush, x, y);
    IndexInverse(x, y, stride);
    var next := PaintedTo(was, stride, r, brush, x + 1, y);
    forall k | 0 <= k < |was| && k != i ensures next[k] == now[k] {
      AtIndex(k, stride);
      hide Index, Column, Row, Paint, Covers;
    }
    hide Index, Column, Row, Paint, Covers;
    assert next == now[i := Paint(brush, r.w, r.h, x - r.x, y - r.y, was[i])];
  }

  lemma PaintRow(was: seq<Pixel>, stride: nat, r: Rect, brush: Brush, y: nat)
    requires Covers(brush, r.w, r.h)
    ensures PaintedTo(was, stride, r, brush, r.x + r.w, y) == PaintedTo(was, stride, r, brush, r.x, y + 1)
  {
    hide Column, Row, Paint, Covers;
  }

  lemma PaintAll(was: seq<Pixel>, stride: nat, r: Rect, brush: Brush)
    requires Covers(brush, r.w, r.h)
    ensures PaintedTo(was, stride, r, brush, r.x, r.y + r.h) == Painted(was, stride, r, brush)
  {
    hide Column, Row, Paint, Covers;
  }

  // --------------------------------------------------------------- the swap

  /** `was`, with the rows of `r` above `y` taken from `source`. */
  function CopiedTo(was: seq<Pixel>, source: seq<Pixel>, stride: nat, r: Rect, y: nat): (now: seq<Pixel>)
    requires |source| == |was|
    ensures |now| == |was|
  {
    seq(|was|, k requires 0 <= k < |was| =>
          if Inside(r, Column(k, stride), Row(k, stride)) && Row(k, stride) < y then source[k] else was[k])
  }

  /** `was`, with `r` taken from `source`. */
  function Copied(was: seq<Pixel>, source: seq<Pixel>, stride: nat, r: Rect): (now: seq<Pixel>)
    requires |source| == |was|
    ensures |now| == |was|
  {
    seq(|was|, k requires 0 <= k < |was| =>
          if Inside(r, Column(k, stride), Row(k, stride)) then source[k] else was[k])
  }

  lemma CopyEnds(was: seq<Pixel>, source: seq<Pixel>, stride: nat, r: Rect)
    requires |source| == |was|
    ensures CopiedTo(was, source, stride, r, r.y) == was
    ensures CopiedTo(was, source, stride, r, r.y + r.h) == Copied(was, source, stride, r)
    ensures was == source || r.w == 0 || r.h == 0 ==> Copied(was, source, stride, r) == was
  {
    hide Column, Row;
  }

  lemma CopyRow(was: seq<Pixel>, source: seq<Pixel>, stride: nat, r: Rect, y: nat)
    requires |source| == |was| && r.y <= y < r.y + r.h && r.x + r.w <= stride && Index(r.x, y, stride) + r.w <= |was|
    ensures var i, now := Index(r.x, y, stride), CopiedTo(was, source, stride, r, y);
            CopiedTo(was, source, stride, r, y + 1) == now[..i] + source[i..i + r.w] + now[i + r.w..]
  {
    var i, now := Index(r.x, y, stride), CopiedTo(was, source, stride, r, y);
    var next := CopiedTo(was, source, stride, r, y + 1);
    forall k | 0 <= k < |was| ensures next[k] == if i <= k < i + r.w then source[k] else now[k] {
      InRow(k, r, y, stride);
      hide Index, Column, Row;
    }
  }

  /** A line of the rectangle is `w` consecutive offsets. */
  lemma InRow(k: nat, r: Rect, y: nat, stride: nat)
    requires r.y <= y < r.y + r.h && r.x + r.w <= stride
    ensures var i := Index(r.x, y, stride);
            i <= k < i + r.w <==> Inside(r, Column(k, stride), Row(k, stride)) && Row(k, stride) == y
  {
    var i := Index(r.x, y, stride);
    if i <= k < i + r.w {
      IndexInverse(r.x + (k - i), y, stride);
    } else if stride > 0 {
      AtIndex(k, stride);
    }
  }

  // ---------------------------------------------------------------- read back

  /** Of the rectangle, (dx, dy) comes before (x, y). */
  predicate Earlier(r: Rect, dx: int, dy: int, x: int, y: int) {
    0 <= dx < r.w && 0 <= dy < r.h && (dy < y || (dy == y && dx < x))
  }

  /** (dx, dy) belongs at offset `k` of the buffer, and the buffer holds its pixel. */
  predicate Holds(buffer: seq<Pixel>, source: seq<Pixel>, stride: nat, r: Rect, pitch: nat, k: nat, dx: nat, dy: nat) {
    && Index(dx, dy, pitch) == k < |buffer| && Index(r.x + dx, r.y + dy, stride) < |source|
    && buffer[k] == source[Index(r.x + dx, r.y + dy, stride)]
  }

  /** Offset `k` holds the pixel of some (dx, dy) before (x, y) that belongs there. */
  ghost predicate Taken(buffer: seq<Pixel>, source: seq<Pixel>, stride: nat, r: Rect, pitch: nat, k: nat, x: nat,
                        y: nat)
  {
    exists dx, dy :: Earlier(r, dx, dy, x, y) && Holds(buffer, source, stride, r, pitch, k, dx, dy)
  }

  /** No pixel of the rectangle before (x, y) belongs at offset `k` of the buffer. */
  ghost predicate Free(r: Rect, pitch: nat, k: nat, x: nat, y: nat) {
    forall dx, dy :: Earlier(r, dx, dy, x, y) ==> Index(dx, dy, pitch) != k
  }

  /** The buffer `was`, after the pixels of `r` before (x, y) have been read into it. */
  ghost predicate ReadTo(buffer: seq<Pixel>, was: seq<Pixel>, source: seq<Pixel>, stride: nat, r: Rect, pitch: nat,
                         x: nat, y: nat)
  {
    && |buffer| == |was|
    && forall k :: 0 <= k < |buffer| ==>
         Settled(buffer, was, source, stride, r, pitch, k, x, y)
  }

  /** Offset `k` holds a pixel that belongs there, or what it held before if no pixel does. */
  ghost predicate Settled(buffer: seq<Pixel>, was: seq<Pixel>, source: seq<Pixel>, stride: nat, r: Rect, pitch: nat,
                          k: nat, x: nat, y: nat)
  {
    || (Free(r, pitch, k, x, y) && k < |buffer| && k < |was| && buffer[k] == was[k])
    || Taken(buffer, source, stride, r, pitch, k, x, y)
  }

  lemma ReadNext(buffer: seq<Pixel>, was: seq<Pixel>, source: seq<Pixel>, stride: nat, r: Rect, pitch: nat, x: nat,
                 y: nat)
    requires ReadTo(buffer, was, source, stride, r, pitch, x, y) && x < r.w && y < r.h
    requires Index(x, y, pitch) < |buffer| && Index(r.x + x, r.y + y, stride) < |source|
    ensures ReadTo(buffer[Index(x, y, pitch) := source[Index(r.x + x, r.y + y, stride)]], was, source, stride, r, pitch,
                   x + 1, y)
  {
    hide Index;
    var i := Index(x, y, pitch);
    var next := buffer[i := source[Index(r.x + x, r.y + y, stride)]];
    assert Earlier(r, x, y, x + 1, y) && Holds(next, source, stride, r, pitch, i, x, y);
    var x1 := x + 1;
    forall k | 0 <= k < |buffer| ensures Settled(next, was, source, stride, r, pitch, k, x1, y) {
      assert Settled(buffer, was, source, stride, r, pitch, k, x, y);
      if k != i && Taken(buffer, source, stride, r, pitch, k, x, y) {
        var dx, dy :| Earlier(r, dx, dy, x, y) && Holds(buffer, source, stride, r, pitch, k, dx, dy);
        assert Earlier(r, dx, dy, x + 1, y) && Holds(next, source, stride, r, pitch, k, dx, dy);
      }
    }
  }

  lemma ReadRow(buffer: seq<Pixel>, was: seq<Pixel>, source: seq<Pixel>, stride: nat, r: Rect, pitch: nat, y: nat)
    requires ReadTo(buffer, was, source, stride, r, pitch, r.w, y)
    ensures ReadTo(buffer, was, source, stride, r, pitch, 0, y + 1)
  {
    hide Index;
    var y1 := y + 1;
    forall k | 0 <= k < |buffer| ensures Settled(buffer, was, source, stride, r, pitch, k, 0, y1) {
      assert Settled(buffer, was, source, stride, r, pitch, k, r.w, y);
      if Taken(buffer, source, stride, r, pitch, k, r.w, y) {
        var dx, dy :| Earlier(r, dx, dy, r.w, y) && Holds(buffer, source, stride, r, pitch, k, dx, dy);
        assert Earlier(r, dx, dy, 0, y + 1);
      }
    }
  }

  lemma ReadNone(was: seq<Pixel>, source: seq<Pixel>, stride: nat, r: Rect, pitch: nat)
    ensures ReadTo(was, was, source, stride, r, pitch, 0, 0)
  {
    forall k | 0 <= k < |was| ensures Settled(was, was, source, stride, r, pitch, k, 0, 0) {
      assert Free(r, pitch, k, 0, 0);
    }
  }

  lemma PaintNothing(was: seq<Pixel>, stride: nat, r: Rect, brush: Brush)
    requires Covers(brush, r.w, r.h) && (r.w == 0 || r.h == 0)
    ensures Painted(was, stride, r, brush) == was
  {}

  lemma Along(x: nat, d: nat, y: nat, stride: nat)
    ensures Index(x + d, y, stride) == Index(x, y, stride) + d
  {}

  lemma NextLine(x: nat, y: nat, stride: nat)
    ensures Index(x, y + 1, stride) == Index(x, y, stride) + stride
  {}

  lemma LineBound(x: nat, w: nat, y: nat, stride: nat, height: nat)
    requires x + w <= stride && y < height
    ensures Index(x, y, stride) + w <= stride * height
  {
    RowsApart(y, height, stride);
  }

  /** memcpy of a line, between buffers that do not overlap */
  method CopyLine(to: array<Pixel>, from: array<Pixel>, at: nat, n: nat)
    requires to != from && at + n <= to.Length && at + n <= from.Length
    modifies to
    ensures to[..] == old(to[..])[..at] + from[..][at..at + n] + old(to[..])[at + n..]
  {
    var i := 0;
    while i < n
      invariant 0 <= i <= n
      invariant forall k :: 0 <= k < to.Length ==> to[k] == if at <= k < at + i then from[k] else old(to[k])
    {
      to[at + i] := from[at + i];
      i := i + 1;
    }
  }

  // ---------------------------------------------------------------- the class

  class Framebuffer {
    const pixels: array<Pixel>
    const width: nat
    const height: nat
    const stride: nat

    constructor (pixels: array<Pixel>, width: nat, height: nat, stride: nat)
      ensures this.pixels == pixels && this.width == width && this.height == height && this.stride == stride
    {
      this.pixels, this.width, this.height, this.stride := pixels, width, height, stride;
    }

    /** A line holds the visible pixels, and the buffer holds the lines. */
    predicate Valid() {
      width <= stride && stride * height <= pixels.Length
    }
  }

  class BasicRenderer {
    const render: Framebuffer
    const target: Framebuffer
    var background: Pixel

    constructor (render: Framebuffer, target: Framebuffer, background: Pixel)
      ensures this.render == render && this.target == target && this.background == background
    {
      this.render, this.target, this.background := render, target, background;
    }

    /** The target is laid out as the render buffer is, and may even be the same memory. */
    predicate Valid() {
      && render.Valid() && target.Valid()
      && render.width == target.width && render.height == target.height && render.stride == target.stride
      && render.pixels.Length == target.pixels.Length
    }

    function Clipped(position: Vec, size: Vec): Rect {
      Clip(target.width, target.height, position, size)
    }

    /** The brush has data for every pixel that will be drawn. */
    predicate Supplies(brush: Brush, position: Vec, size: Vec) {
      Covers(brush, Clipped(position, size).w, Clipped(position, size).h)
    }

    method ClampDrawPosition(position: Vec) returns (clamped: Vec)
      ensures clamped == Vec(Clipped(position, Vec(0, 0)).x, Clipped(position, Vec(0, 0)).y)
    {
      clamped := position;
      if clamped.x > target.width {
        clamped := clamped.(x := target.width);
      }
      if clamped.y > target.height {
        clamped := clamped.(y := target.height);
      }
    }

    /** The beginning of every drawing operation: clamp the position, cut the size. */
    method ClipToTarget(position: Vec, size: Vec) returns (clamped: Vec, cut: Vec)
      ensures Clipped(position, size) == Rect(clamped.x, clamped.y, cut.x, cut.y)
    {
      clamped := ClampDrawPosition(position);
      cut := size;
      var diffX, diffY := target.width - clamped.x, target.height - clamped.y;
      if diffX < cut.x {
        cut := cut.(x := diffX);
      }
      if diffY < cut.y {
        cut := cut.(y := diffY);
      }
    }

    method DrawRect(position: Vec, size: Vec, color: Pixel) returns (clamped: Vec)
      requires Valid()
      modifies target.pixels
      ensures clamped == Vec(Clipped(position, size).x, Clipped(position, size).y)
      ensures target.pixels[..] == Painted(old(target.pixels[..]), target.stride, Clipped(position, size), Solid(color))
    {
      hide Painted, PaintedTo, Index;
      var cut;
      clamped, cut := ClipToTarget(position, size);
      ghost var r, brush, was := Rect(clamped.x, clamped.y, cut.x, cut.y), Solid(color), target.pixels[..];
      PaintNone(was, target.stride, r, brush);
      var y := clamped.y;
      while y < clamped.y + cut.y
        invariant clamped.y <= y <= clamped.y + cut.y
        invariant target.pixels[..] == PaintedTo(was, target.stride, r, brush, r.x, y)
      {
        var x := clamped.x;
        while x < clamped.x + cut.x
          invariant clamped.x <= x <= clamped.x + cut.x
          invariant target.pixels[..] == PaintedTo(was, target.stride, r, brush, x, y)
        {
          IndexBound(x, y, target.stride, target.height);
          PaintNext(was, target.stride, r, brush, x, y);
          target.pixels[Index(x, y, target.stride)] := color;
          x := x + 1;
        }
        PaintRow(was, target.stride, r, brush, y);
        y := y + 1;
      }
      PaintAll(was, target.stride, r, brush);
    }

    /** drawpix: the drawn part of a linear buffer of pixels; `size.x` pixels make a line of it. */
    method DrawPix(position: Vec, size: Vec, image: array?<Pixel>) returns (clamped: Vec)
      requires Valid()
      requires image != null ==>
                 image != target.pixels && Supplies(Image(image[..], Low32(size.x)), position, size)
      modifies target.pixels
      ensures image == null ==> clamped == position && target.pixels[..] == old(target.pixels[..])
      ensures image != null ==> clamped == Vec(Clipped(position, size).x, Clipped(position, size).y)
      ensures image != null ==>
                target.pixels[..] ==
                Painted(old(target.pixels[..]), target.stride, Clipped(position, size), Image(image[..], Low32(size.x)))
    {
      hide Painted, PaintedTo, Index, Low32;
      if image == null {
        return position;
      }
      var cut;
      clamped, cut := ClipToTarget(position, size);
      var pitch := Low32(size.x);
      ghost var r, was := Rect(clamped.x, clamped.y, cut.x, cut.y), target.pixels[..];
      ghost var brush := Image(image[..], Low32(size.x));
      PaintNone(was, target.stride, r, brush);
      var y := clamped.y;
      while y < clamped.y + cut.y
        invariant clamped.y <= y <= clamped.y + cut.y
        invariant target.pixels[..] == PaintedTo(was, target.stride, r, brush, r.x, y)
      {
        var x := clamped.x;
        while x < clamped.x + cut.x
          invariant clamped.x <= x <= clamped.x + cut.x
          invariant target.pixels[..] == PaintedTo(was, target.stride, r, brush, x, y)
        {
          IndexBound(x, y, target.stride, target.height);
          PaintNext(was, target.stride, r, brush, x, y);
          target.pixels[Index(x, y, target.stride)] := image[Index(x - clamped.x, y - clamped.y, pitch)];
          x := x + 1;
        }
        PaintRow(was, target.stride, r, brush, y);
        y := y + 1;
      }
      PaintAll(was, target.stride, r, brush);
    }

    /** drawbmp */
    method DrawBmp(position: Vec, size: Vec, bitmap: Memory, color: Pixel) returns (clamped: Vec)
      requires Valid()
      requires bitmap.Bytes? ==>
                 Supplies(Bitmap(bitmap.bytes, Low32(size.x), color, background), position, size)
      modifies target.pixels
      ensures bitmap.Null? ==> clamped == position && target.pixels[..] == old(target.pixels[..])
      ensures bitmap.Bytes? ==> clamped == Vec(Clipped(position, size).x, Clipped(position, size).y)
      ensures bitmap.Bytes? ==>
                target.pixels[..] ==
                Painted(old(target.pixels[..]), target.stride, Clipped(position, size),
                        Bitmap(bitmap.bytes, Low32(size.x), color, background))
      ensures bitmap.Bytes? ==>
                ShowsBits(target.pixels[..], old(target.pixels[..]), target.width, target.height, target.stride,
                          position, size, bitmap.bytes, color, Some(background))
    {
      hide ShowsBits, Painted, PaintedTo, Index, Low32, BitSet, ByteAt;
      if bitmap.Null? {
        return position;
      }
      var cut;
      clamped, cut := ClipToTarget(position, size);
      var pitch := Low32(size.x);
      ghost var r, was := Rect(clamped.x, clamped.y, cut.x, cut.y), target.pixels[..];
      ghost var brush := Bitmap(bitmap.bytes, Low32(size.x), color, background);
      PaintNone(was, target.stride, r, brush);
      var y := clamped.y;
      while y < clamped.y + cut.y
        invariant clamped.y <= y <= clamped.y + cut.y
        invariant target.pixels[..] == PaintedTo(was, target.stride, r, brush, r.x, y)
      {
        var x := clamped.x;
        while x < clamped.x + cut.x
          invariant clamped.x <= x <= clamped.x + cut.x
          invariant target.pixels[..] == PaintedTo(was, target.stride, r, brush, x, y)
        {
          IndexBound(x, y, target.stride, target.height);
          PaintNext(was, target.stride, r, brush, x, y);
          if BitSet(bitmap.bytes[ByteAt(x - clamped.x, y - clamped.y, pitch)], x - clamped.x) {
            target.pixels[Index(x, y, target.stride)] := color;
          } else {
            target.pixels[Index(x, y, target.stride)] := background;
          }
          x := x + 1;
        }
        PaintRow(was, target.stride, r, brush, y);
        y := y + 1;
      }
      PaintAll(was, target.stride, r, brush);
      AllBits(was, target.width, target.height, target.stride, position, size, bitmap.bytes, color, Some(background));
    }

    /** drawbmpover */
    method DrawBmpOver(position: Vec, size: Vec, bitmap: Memory, color: Pixel) returns (clamped: Vec)
      requires Valid()
      requires bitmap.Bytes? ==>
                 Supplies(Overlay(bitmap.bytes, Low32(size.x), color), position, size)
      modifies target.pixels
      ensures bitmap.Null? ==> clamped == position && target.pixels[..] == old(target.pixels[..])
      ensures bitmap.Bytes? ==> clamped == Vec(Clipped(position, size).x, Clipped(position, size).y)
      ensures bitmap.Bytes? ==>
                target.pixels[..] ==
                Painted(old(target.pixels[..]), target.stride, Clipped(position, size),
                        Overlay(bitmap.bytes, Low32(size.x), color))
      ensures bitmap.Bytes? ==>
                ShowsBits(target.pixels[..], old(target.pixels[..]), target.width, target.height, target.stride,
                          position, size, bitmap.bytes, color, None)
    {
      hide ShowsBits, Painted, PaintedTo, Index, Low32, BitSet, ByteAt;
      if bitmap.Null? {
        return position;
      }
      var cut;
      clamped, cut := ClipToTarget(position, size);
      var pitch := Low32(size.x);
      ghost var r, was := Rect(clamped.x, clamped.y, cut.x, cut.y), target.pixels[..];
      ghost var brush := Overlay(bitmap.bytes, Low32(size.x), color);
      PaintNone(was, target.stride, r, brush);
      var y := clamped.y;
      while y < clamped.y + cut.y
        invariant clamped.y <= y <= clamped.y + cut.y
        invariant target.pixels[..] == PaintedTo(was, target.stride, r, brush, r.x, y)
      {
        var x := clamped.x;
        while x < clamped.x + cut.x
          invariant clamped.x <= x <= clamped.x + cut.x
          invariant target.pixels[..] == PaintedTo(was, target.stride, r, brush, x, y)
        {
          IndexBound(x, y, target.stride, target.height);
          PaintNext(was, target.stride, r, brush, x, y);
          if BitSet(bitmap.bytes[ByteAt(x - clamped.x, y - clamped.y, pitch)], x - clamped.x) {
            target.pixels[Index(x, y, target.stride)] := color;
          } else {
            ghost var i := Index(x, y, target.stride);
            assert target.pixels[..][i := was[i]] == target.pixels[..];
          }
          x := x + 1;
        }
        PaintRow(was, target.stride, r, brush, y);
        y := y + 1;
      }
      PaintAll(was, target.stride, r, brush);
      AllBits(was, target.width, target.height, target.stride, position, size, bitmap.bytes, color, None);
    }

    /** readpix: the drawn part of the target, into a linear buffer with `size.x` pixels to a line. */
    method ReadPix(position: Vec, size: Vec, buffer: array?<Pixel>) returns (clamped: Vec)
      requires Valid()
      requires buffer != null ==>
                 buffer != target.pixels && Supplies(Image(buffer[..], Low32(size.x)), position, size)
      modifies if buffer != null then {buffer} else {}
      ensures buffer == null ==> clamped == position
      ensures buffer != null ==> clamped == Vec(Clipped(position, size).x, Clipped(position, size).y)
      ensures buffer != null ==> target.pixels[..] == old(target.pixels[..])
      ensures buffer != null ==>
                var r := Clipped(position, size);
                ReadTo(buffer[..], old(buffer[..]), target.pixels[..], target.stride, r, Low32(size.x), 0, r.h)
    {
      hide ReadTo, Index, Low32;
      if buffer == null {
        return position;
      }
      var cut;
      clamped, cut := ClipToTarget(position, size);
      var pitch := Low32(size.x);
      ghost var r, was, source := Rect(clamped.x, clamped.y, cut.x, cut.y), buffer[..], target.pixels[..];
      ReadNone(was, source, target.stride, r, pitch);
      var y := clamped.y;
      while y < clamped.y + cut.y
        invariant clamped.y <= y <= clamped.y + cut.y && target.pixels[..] == source
        invariant ReadTo(buffer[..], was, source, target.stride, r, pitch, 0, y - clamped.y)
      {
        var x := clamped.x;
        while x < clamped.x + cut.x
          invariant clamped.x <= x <= clamped.x + cut.x && target.pixels[..] == source
          invariant ReadTo(buffer[..], was, source, target.stride, r, pitch, x - clamped.x, y - clamped.y)
        {
          IndexBound(x, y, target.stride, target.height);
          ReadNext(buffer[..], was, source, target.stride, r, pitch, x - clamped.x, y - clamped.y);
          buffer[Index(x - clamped.x, y - clamped.y, pitch)] := target.pixels[Index(x, y, target.stride)];
          x := x + 1;
        }
        ReadRow(buffer[..], was, source, target.stride, r, pitch, y - clamped.y);
        y := y + 1;
      }
    }

    /** swap of a rectangle: one copy per line. */
    method Swap(position: Vec, size: Vec)
      requires Valid()
      modifies render.pixels
      ensures target.pixels[..] == old(target.pixels[..])
      ensures render.pixels[..] ==
              Copied(old(render.pixels[..]), old(target.pixels[..]), target.stride, Clipped(position, size))
    {
      hide Copied, CopiedTo, Index;
      ghost var was, source := render.pixels[..], target.pixels[..];
      ghost var r := Clipped(position, size);
      CopyEnds(was, source, target.stride, r);
      if render.pixels == target.pixels {
        return;
      }
      if position.x > target.width || position.y > target.height {
        return;
      }
      var diffX, diffY := target.width - position.x, target.height - position.y;
      var w, h := size.x, size.y;
      if diffX < w {
        w := diffX;
      }
      if diffY < h {
        h := diffY;
      }
      var at := Index(position.x, position.y, target.stride);
      var y := 0;
      while y < h
        invariant 0 <= y <= h && at == Index(position.x, position.y + y, target.stride)
        invariant target.pixels[..] == source
        invariant render.pixels[..] == CopiedTo(was, source, target.stride, r, r.y + y)
      {
        SwapLine(at, w, was, r, r.y + y);
        NextLine(position.x, position.y + y, target.stride);
        at := at + target.stride;
        y := y + 1;
      }
    }

    /** One line of the swap. */
    method SwapLine(at: nat, w: nat, ghost was: seq<Pixel>, ghost r: Rect, ghost y: nat)
      requires Valid() && render.pixels != target.pixels && |was| == target.pixels.Length && w == r.w
      requires r.y <= y < r.y + r.h <= target.height && r.x + r.w <= target.width && at == Index(r.x, y, target.stride)
      requires render.pixels[..] == CopiedTo(was, target.pixels[..], target.stride, r, y)
      modifies render.pixels
      ensures target.pixels[..] == old(target.pixels[..])
      ensures render.pixels[..] == CopiedTo(was, target.pixels[..], target.stride, r, y + 1)
    {
      hide CopiedTo, Index;
      LineBound(r.x, r.w, y, target.stride, target.height);
      CopyRow(was, target.pixels[..], target.stride, r, y);
      CopyLine(render.pixels, target.pixels, at, w);
    }

    /** One line of the clearing. */
    method ClearLine(at: nat, w: nat, ghost was: seq<Pixel>, ghost r: Rect, ghost y: nat)
      requires Valid() && |was| == render.pixels.Length && w == r.w
      requires r.y <= y < r.y + r.h <= target.height && r.x + r.w <= target.width && at == Index(r.x, y, target.stride)
      requires render.pixels[..] == PaintedTo(was, target.stride, r, Solid(background), r.x, y)
      modifies render.pixels
      ensures render.pixels[..] == PaintedTo(was, target.stride, r, Solid(background), r.x, y + 1)
    {
      hide PaintedTo, Index;
      ghost var brush := Solid(background);
      var x := 0;
      while x < w
        invariant 0 <= x <= w
        invariant render.pixels[..] == PaintedTo(was, target.stride, r, brush, r.x + x, y)
      {
        Along(r.x, x, y, target.stride);
        IndexBound(r.x + x, y, target.stride, target.height);
        PaintNext(was, target.stride, r, brush, r.x + x, y);
        render.pixels[at + x] := background;
        x := x + 1;
      }
      PaintRow(was, target.stride, r, brush, y);
    }

    /** clear of a rectangle: it writes the render buffer, not the target. */
    method Clear(position: Vec, size: Vec)
      requires Valid()
      modifies render.pixels
      ensures render.pixels[..] ==
              Painted(old(render.pixels[..]), target.stride, Clipped(position, size), Solid(background))
    {
      hide Painted, PaintedTo, Index;
      ghost var was := render.pixels[..];
      ghost var r, brush := Clipped(position, size), Solid(background);
      PaintNone(was, target.stride, r, brush);
      PaintAll(was, target.stride, r, brush);
      if position.x > target.width || position.y > target.height {
        PaintNothing(was, target.stride, r, brush);
        return;
      }
      var diffX, diffY := target.width - position.x, target.height - position.y;
      var w, h := size.x, size.y;
      if diffX < w {
        w := diffX;
      }
      if diffY < h {
        h := diffY;
      }
      var at := Index(position.x, position.y, render.stride);
      var y := 0;
      while y < h
        invariant 0 <= y <= h && at == Index(position.x, position.y + y, target.stride)
        invariant render.pixels[..] == PaintedTo(was, target.stride, r, brush, r.x, r.y + y)
      {
        ClearLine(at, w, was, r, r.y + y);
        NextLine(position.x, position.y + y, target.stride);
        at := at + render.stride;
        y := y + 1;
      }
    }
  }

  // ------------------------------------------------------- what the screen shows

  /** The two buffers agree on everything that can be seen. */
  ghost predicate Agree(render: seq<Pixel>, target: seq<Pixel>, width: nat, height: nat, stride: nat)
    requires |render| == |target|
  {
    forall k :: 0 <= k < |render| && Column(k, stride) < width && Row(k, stride) < height ==> render[k] == target[k]
  }

  /** Drawing and then swapping the same rectangle makes the buffers agree again, and leaves the rest alone. */
  lemma DrawThenSwap(render: seq<Pixel>, target: seq<Pixel>, width: nat, height: nat, stride: nat,
                     position: Vec, size: Vec, brush: Brush)
    requires |render| == |target|
    requires var r := Clip(width, height, position, size); Covers(brush, r.w, r.h)
    ensures var r := Clip(width, height, position, size);
            var drawn := Painted(target, stride, r, brush);
            var shown := Copied(render, drawn, stride, r);
            && (Agree(render, target, width, height, stride) ==> Agree(shown, drawn, width, height, stride))
            && (forall k :: 0 <= k < |target| && !Inside(r, Column(k, stride), Row(k, stride)) ==>
                  drawn[k] == target[k] && shown[k] == render[k])
  {
    hide Column, Row, Paint, Covers, Clip;
  }

  /** What `readpix` finds after `drawpix`: the pixels that were drawn, wherever the lines fall. */
  lemma ReadAfterDraw(target: seq<Pixel>, stride: nat, r: Rect, image: seq<Pixel>, pitch: nat,
                      buffer: seq<Pixel>, was: seq<Pixel>, k: nat)
    requires Covers(Image(image, pitch), r.w, r.h) && r.x + r.w <= stride && k < |buffer|
    requires ReadTo(buffer, was, Painted(target, stride, r, Image(image, pitch)), stride, r, pitch, 0, r.h)
    ensures Free(r, pitch, k, 0, r.h) ==> buffer[k] == was[k]
    ensures !Free(r, pitch, k, 0, r.h) ==> k < |image| && buffer[k] == image[k]
  {
    hide Index, Painted, Covers, Holds;
    var drawn := Painted(target, stride, r, Image(image, pitch));
    assert Settled(buffer, was, drawn, stride, r, pitch, k, 0, r.h);
    if Taken(buffer, drawn, stride, r, pitch, k, 0, r.h) {
      var dx, dy :| Earlier(r, dx, dy, 0, r.h) && Holds(buffer, drawn, stride, r, pitch, k, dx, dy);
      DrawnPixel(target, stride, r, image, pitch, buffer, k, dx, dy);
    }
  }

  lemma DrawnPixel(target: seq<Pixel>, stride: nat, r: Rect, image: seq<Pixel>, pitch: nat,
                   buffer: seq<Pixel>, k: nat, dx: nat, dy: nat)
    requires Covers(Image(image, pitch), r.w, r.h) && r.x + r.w <= stride && dx < r.w && dy < r.h
    requires Holds(buffer, Painted(target, stride, r, Image(image, pitch)), stride, r, pitch, k, dx, dy)
    ensures k == Index(dx, dy, pitch) < |image| && k < |buffer| && buffer[k] == image[k]
  {
    hide Index, Column, Row;
    IndexInverse(r.x + dx, r.y + dy, stride);
  }

  // ----------------------------------------------------------- pixel by pixel

  /** A pixel of the screen that lies in the requested rectangle. */
  predicate Requested(width: nat, height: nat, position: Vec, size: Vec, x: nat, y: nat) {
    x < width && y < height && position.x <= x < position.x + size.x && position.y <= y < position.y + size.y
  }

  lemma PaintedAt(was: seq<Pixel>, width: nat, height: nat, stride: nat, position: Vec, size: Vec, brush: Brush,
                  x: nat, y: nat)
    requires var r := Clip(width, height, position, size); Covers(brush, r.w, r.h)
    requires x < stride && x + y * stride < |was|
    ensures var r, i := Clip(width, height, position, size), x + y * stride;
            var now := Painted(was, stride, r, brush);
            if Requested(width, height, position, size, x, y)
            then
              && r.x == position.x && r.y == position.y && x - r.x < r.w && y - r.y < r.h
              && now[i] == Paint(brush, r.w, r.h, x - r.x, y - r.y, was[i])
            else now[i] == was[i]
  {
    IndexInverse(x, y, stride);
    ClipMeaning(width, height, position, size, x, y);
    assert Index(x, y, stride) == x + y * stride;
    hide Column, Row, Paint, Covers, Index;
  }

  /** drawrect and drawpix: the colour, or the image's pixel at its own pitch. */
  lemma RectPixel(was: seq<Pixel>, width: nat, height: nat, stride: nat, position: Vec, size: Vec, color: Pixel,
                  x: nat, y: nat)
    requires x < stride && x + y * stride < |was|
    ensures Painted(was, stride, Clip(width, height, position, size), Solid(color))[x + y * stride] ==
            if Requested(width, height, position, size, x, y) then color else was[x + y * stride]
  {
    PaintedAt(was, width, height, stride, position, size, Solid(color), x, y);
  }

  lemma ImagePixel(was: seq<Pixel>, width: nat, height: nat, stride: nat, position: Vec, size: Vec, image: seq<Pixel>,
                   x: nat, y: nat)
    requires var r := Clip(width, height, position, size); Covers(Image(image, Low32(size.x)), r.w, r.h)
    requires x < stride && x + y * stride < |was|
    ensures var now := Painted(was, stride, Clip(width, height, position, size), Image(image, Low32(size.x)));
            if Requested(width, height, position, size, x, y)
            then
              var i := x - position.x + (y - position.y) * (size.x % 0x1_0000_0000);
              0 <= i < |image| && now[x + y * stride] == image[i]
            else now[x + y * stride] == was[x + y * stride]
  {
    PaintedAt(was, width, height, stride, position, size, Image(image, Low32(size.x)), x, y);
  }

  /** Which bit of its byte column `dx` looks at, by the byte's value. */
  lemma BitMeaning(b: bv8, dx: nat)
    ensures BitSet(b, dx) <==> b as int / [128, 64, 32, 16, 8, 4, 2, 1][dx % 8] % 2 == 1
  {
    MaskOf(dx % 8);
    HighBits(b);
    LowBits(b);
  }

  lemma MaskOf(k: nat)
    requires k < 8
    ensures (0x80 as bv8) >> k == [0x80, 0x40, 0x20, 0x10, 8, 4, 2, 1][k]
  {}

  lemma LowestBit(b: bv8)
    ensures b & 1 != 0 <==> b as int % 2 == 1
  {}

  lemma HighBits(b: bv8)
    ensures b & 0x80 != 0 <==> b as int / 128 % 2 == 1
    ensures b & 0x40 != 0 <==> b as int / 64 % 2 == 1
    ensures b & 0x20 != 0 <==> b as int / 32 % 2 == 1
    ensures b & 0x10 != 0 <==> b as int / 16 % 2 == 1
  {
    ShiftedFar(b);
    LowestBit(b >> 7);
    LowestBit(b >> 6);
    LowestBit(b >> 5);
    LowestBit(b >> 4);
    MasksFar(b);
  }

  lemma LowBits(b: bv8)
    ensures b & 8 != 0 <==> b as int / 8 % 2 == 1
    ensures b & 4 != 0 <==> b as int / 4 % 2 == 1
    ensures b & 2 != 0 <==> b as int / 2 % 2 == 1
    ensures b & 1 != 0 <==> b as int / 1 % 2 == 1
  {
    ShiftedNear(b);
    LowestBit(b >> 3);
    LowestBit(b >> 2);
    LowestBit(b >> 1);
    LowestBit(b);
    MasksNear(b);
  }

  lemma Halved(b: bv8)
    ensures (b >> 1) as int == b as int / 2
  {}

  lemma ShiftedNear(b: bv8)
    ensures (b >> 3) as int == b as int / 8 && (b >> 2) as int == b as int / 4 && (b >> 1) as int == b as int / 2
  {
    Halved(b);
    Halved(b >> 1);
    Halved(b >> 2);
    assert (b >> 1) >> 1 == b >> 2 && (b >> 2) >> 1 == b >> 3;
  }

  lemma ShiftedFar(b: bv8)
    ensures (b >> 7) as int == b as int / 128 && (b >> 6) as int == b as int / 64
    ensures (b >> 5) as int == b as int / 32 && (b >> 4) as int == b as int / 16
  {
    ShiftedNear(b);
    Halved(b >> 3);
    ShiftedNear(b >> 4);
    assert (b >> 3) >> 1 == b >> 4;
    assert (b >> 4) >> 1 == b >> 5 && (b >> 4) >> 2 == b >> 6 && (b >> 4) >> 3 == b >> 7;
  }

  lemma MasksFar(b: bv8)
    ensures (b & 0x80 != 0 <==> (b >> 7) & 1 != 0) && (b & 0x40 != 0 <==> (b >> 6) & 1 != 0)
    ensures (b & 0x20 != 0 <==> (b >> 5) & 1 != 0) && (b & 0x10 != 0 <==> (b >> 4) & 1 != 0)
  {}

  lemma MasksNear(b: bv8)
    ensures (b & 8 != 0 <==> (b >> 3) & 1 != 0) && (b & 4 != 0 <==> (b >> 2) & 1 != 0)
    ensures b & 2 != 0 <==> (b >> 1) & 1 != 0
  {}

  /** What a bitmap leaves at (x, y): the colour where its bit is set, by the byte's value; where it is clear the
      background, or what was there if there is none. */
  predicate ShowsBit(now: seq<Pixel>, was: seq<Pixel>, width: nat, height: nat, stride: nat, position: Vec,
                     size: Vec, bits: seq<bv8>, color: Pixel, background: Option<Pixel>, x: nat, y: nat)
    requires |now| == |was| && x + y * stride < |was|
  {
    var i := x + y * stride;
    if !Requested(width, height, position, size, x, y) then now[i] == was[i]
    else
      var dx, dy := x - position.x, y - position.y;
      var n := (dx + dy * (size.x % 0x1_0000_0000)) / 8;
      && 0 <= n < |bits|
      && now[i] == if bits[n] as int / [128, 64, 32, 16, 8, 4, 2, 1][dx % 8] % 2 == 1 then color
                   else if background.Some? then background.value else was[i]
  }

  function BitBrush(bits: seq<bv8>, pitch: nat, color: Pixel, background: Option<Pixel>): Brush {
    if background.Some? then Bitmap(bits, pitch, color, background.value) else Overlay(bits, pitch, color)
  }

  /** drawbmp and drawbmpover. */
  lemma BitmapPixel(was: seq<Pixel>, width: nat, height: nat, stride: nat, position: Vec, size: Vec, bits: seq<bv8>,
                    color: Pixel, background: Option<Pixel>, x: nat, y: nat)
    requires var r := Clip(width, height, position, size);
             Covers(BitBrush(bits, Low32(size.x), color, background), r.w, r.h)
    requires x < stride && x + y * stride < |was|
    ensures var r, brush := Clip(width, height, position, size), BitBrush(bits, Low32(size.x), color, background);
            ShowsBit(Painted(was, stride, r, brush), was, width, height, stride, position, size, bits, color,
                     background, x, y)
  {
    hide BitSet, Painted, Clip;
    PaintedAt(was, width, height, stride, position, size, BitBrush(bits, Low32(size.x), color, background), x, y);
    if Requested(width, height, position, size, x, y) {
      var dx, dy := x - position.x, y - position.y;
      BitMeaning(bits[ByteAt(dx, dy, Low32(size.x))], dx);
    }
  }

  /** All that drawing a bitmap does. */
  ghost predicate ShowsBits(now: seq<Pixel>, was: seq<Pixel>, width: nat, height: nat, stride: nat, position: Vec,
                            size: Vec, bits: seq<bv8>, color: Pixel, background: Option<Pixel>)
  {
    && |now| == |was|
    && forall x: nat, y: nat :: x < stride && x + y * stride < |was| ==>
         ShowsBit(now, was, width, height, stride, position, size, bits, color, background, x, y)
  }

  lemma AllBits(was: seq<Pixel>, width: nat, height: nat, stride: nat, position: Vec, size: Vec, bits: seq<bv8>,
                color: Pixel, background: Option<Pixel>)
    requires var r := Clip(width, height, position, size);
             Covers(BitBrush(bits, Low32(size.x), color, background), r.w, r.h)
    ensures var r, brush := Clip(width, height, position, size), BitBrush(bits, Low32(size.x), color, background);
            ShowsBits(Painted(was, stride, r, brush), was, width, height, stride, position, size, bits, color,
                      background)
  {
    hide Clip, Covers, Painted, Low32, ShowsBit, BitBrush;
    var r, brush := Clip(width, height, position, size), BitBrush(bits, Low32(size.x), color, background);
    var now := Painted(was, stride, r, brush);
    forall x: nat, y: nat | x < stride && x + y * stride < |was|
      ensures ShowsBit(now, was, width, height, stride, position, size, bits, color, background, x, y)
    {
      BitmapPixel(was, width, height, stride, position, size, bits, color, background, x, y);
    }
  }

  /** swap: the target's pixel. */
  lemma SwapPixel(render: seq<Pixel>, target: seq<Pixel>, width: nat, height: nat, stride: nat, position: Vec,
                  size: Vec, x: nat, y: nat)
    requires |render| == |target| && x < stride && x + y * stride < |target|
    ensures Copied(render, target, stride, Clip(width, height, position, size))[x + y * stride] ==
            if Requested(width, height, position, size, x, y) then target[x + y * stride] else render[x + y * stride]
  {
    IndexInverse(x, y, stride);
    ClipMeaning(width, height, position, size, x, y);
    assert Index(x, y, stride) == x + y * stride;
    hide Column, Row, Index;
  }

  /** readpix: with lines at least as long as the part read, every pixel at its place. */
  lemma ReadPixel(buffer: seq<Pixel>, was: seq<Pixel>, source: seq<Pixel>, stride: nat, r: Rect, pitch: nat,
                  dx: nat, dy: nat)
    requires ReadTo(buffer, was, source, stride, r, pitch, 0, r.h) && dx < r.w <= pitch && dy < r.h
    requires dx + dy * pitch < |buffer|
    ensures var i := r.x + dx + (r.y + dy) * stride; i < |source| && buffer[dx + dy * pitch] == source[i]
  {
    var k := Index(dx, dy, pitch);
    assert Settled(buffer, was, source, stride, r, pitch, k, 0, r.h);
    assert Earlier(r, dx, dy, 0, r.h);
    var x, y :| Earlier(r, x, y, 0, r.h) && Holds(buffer, source, stride, r, pitch, k, x, y);
    Unique(x, y, dx, dy, pitch);
  }

  /** `drawbmp` looks at bit dx + dy * pitch of the bitmap exactly when line dy starts on a byte. */
  lemma BitmapLines(dx: nat, dy: nat, pitch: nat)
    ensures 8 * ByteAt(dx, dy, pitch) + dx % 8 == Index(dx, dy, pitch) <==> (dy * pitch) % 8 == 0
  {
    Eighths(dx, dy * pitch);
  }

  lemma Eighths(a: nat, b: nat)
    ensures 8 * ((a + b) / 8) + a % 8 == a + b <==> b % 8 == 0
  {
  }

  // ---------------------------------------------------------------- whole runs

  datatype Op =
    | Draw(r: Rect, brush: Brush)
    | Present(r: Rect)
    | Erase(r: Rect, color: Pixel)

  /** The two buffers; `shared` when the target is the render buffer itself, as it is when the second one could not
      be allocated (kernel/src/basic_renderer.cpp:61-66). */
  datatype Screen = Screen(shared: bool, render: seq<Pixel>, target: seq<Pixel>) {
    predicate Sound() {
      |render| == |target| && (shared ==> render == target)
    }
  }

  predicate Drawable(op: Op) {
    op.Draw? ==> Covers(op.brush, op.r.w, op.r.h)
  }

  predicate AllDrawable(ops: seq<Op>) {
    forall i :: 0 <= i < |ops| ==> Drawable(ops[i])
  }

  function Next(s: Screen, stride: nat, op: Op): (n: Screen)
    requires s.Sound() && Drawable(op)
    ensures n.Sound() && n.shared == s.shared && |n.target| == |s.target|
  {
    match op
    case Draw(r, brush) =>
      var drawn := Painted(s.target, stride, r, brush);
      s.(target := drawn, render := if s.shared then drawn else s.render)
    case Present(r) =>
      CopyEnds(s.render, s.target, stride, r);
      s.(render := Copied(s.render, s.target, stride, r))
    case Erase(r, color) =>
      var erased := Painted(s.render, stride, r, Solid(color));
      s.(render := erased, target := if s.shared then erased else s.target)
  }

  /** The buffers after the first `n` operations. */
  function After(s: Screen, stride: nat, ops: seq<Op>, n: nat): (r: Screen)
    requires s.Sound() && n <= |ops| && AllDrawable(ops)
    ensures r.Sound() && r.shared == s.shared && |r.target| == |s.target|
  {
    if n == 0 then s else Next(After(s, stride, ops, n - 1), stride, ops[n - 1])
  }

  /** With two buffers, clearing a rectangle reaches the screen only: they agree afterwards if and only if they are one
      or the target showed the colour there already.  The next swap of the rectangle undoes the clearing of two. */
  lemma ClearDisagrees(s: Screen, width: nat, height: nat, stride: nat, position: Vec, size: Vec, color: Pixel)
    requires s.Sound() && Agree(s.render, s.target, width, height, stride)
    ensures var r := Clip(width, height, position, size);
            var cleared := Next(s, stride, Erase(r, color));
            && (Agree(cleared.render, cleared.target, width, height, stride) <==>
                s.shared || forall k :: 0 <= k < |s.target| && Inside(r, Column(k, stride), Row(k, stride)) ==>
                              s.target[k] == color)
            && (!s.shared ==> Next(cleared, stride, Present(r)) == Next(s, stride, Present(r)))
  {
    var r := Clip(width, height, position, size);
    assert r.x + r.w <= width && r.y + r.h <= height;
    hide Column, Row, Clip;
    var cleared := Next(s, stride, Erase(r, color));
    if !s.shared {
      assert Copied(cleared.render, s.target, stride, r) == Copied(s.render, s.target, stride, r);
      if Agree(cleared.render, s.target, width, height, stride) {
        forall k | 0 <= k < |s.target| && Inside(r, Column(k, stride), Row(k, stride)) ensures s.target[k] == color {
          assert cleared.render[k] == s.target[k];
        }
      }
    }
  }

  predicate Over(op: Op, stride: nat, k: nat) {
    Inside(op.r, Column(k, stride), Row(k, stride))
  }

  /** The pixel was drawn or erased, and not presented since. */
  ghost predicate Damaged(ops: seq<Op>, stride: nat, n: nat, k: nat)
    requires n <= |ops|
  {
    exists i :: 0 <= i < n && !ops[i].Present? && Over(ops[i], stride, k) && NotPresented(ops, stride, i, n, k)
  }

  ghost predicate NotPresented(ops: seq<Op>, stride: nat, i: nat, n: nat, k: nat)
    requires n <= |ops|
  {
    forall j :: i < j < n ==> !(ops[j].Present? && Over(ops[j], stride, k))
  }

  lemma DamageStep(ops: seq<Op>, stride: nat, n: nat, k: nat)
    requires 0 < n <= |ops|
    ensures Damaged(ops, stride, n, k) <==>
            && !(ops[n - 1].Present? && Over(ops[n - 1], stride, k))
            && (Over(ops[n - 1], stride, k) || Damaged(ops, stride, n - 1, k))
  {
    hide Over;
    if Damaged(ops, stride, n, k) {
      var i :| 0 <= i < n && !ops[i].Present? && Over(ops[i], stride, k) && NotPresented(ops, stride, i, n, k);
      assert NotPresented(ops, stride, i, n - 1, k);
    }
    if !(ops[n - 1].Present? && Over(ops[n - 1], stride, k)) {
      if Over(ops[n - 1], stride, k) {
        assert NotPresented(ops, stride, n - 1, n, k);
      } else if Damaged(ops, stride, n - 1, k) {
        var i :| && 0 <= i < n - 1 && !ops[i].Present?
                 && Over(ops[i], stride, k) && NotPresented(ops, stride, i, n - 1, k);
        assert NotPresented(ops, stride, i, n, k);
      }
    }
  }

  /** Over every run: a pixel can differ between the buffers only while it is damaged. */
  lemma {:induction false} AgreeUnlessDamaged(s: Screen, stride: nat, ops: seq<Op>, n: nat, k: nat)
    requires s.Sound() && n <= |ops| && AllDrawable(ops)
    requires k < |s.target| && s.render[k] == s.target[k] && !Damaged(ops, stride, n, k)
    ensures After(s, stride, ops, n).render[k] == After(s, stride, ops, n).target[k]
    decreases n
  {
    hide Over, Drawable;
    if n > 0 {
      var before, op := After(s, stride, ops, n - 1), ops[n - 1];
      NextPixel(before, stride, op, k);
      DamageStep(ops, stride, n, k);
      if !(op.Present? && Over(op, stride, k)) {
        AgreeUnlessDamaged(s, stride, ops, n - 1, k);
      }
    }
  }

  lemma NextPixel(s: Screen, stride: nat, op: Op, k: nat)
    requires s.Sound() && Drawable(op) && k < |s.target|
    ensures !Over(op, stride, k) ==>
              Next(s, stride, op).render[k] == s.render[k] && Next(s, stride, op).target[k] == s.target[k]
    ensures op.Draw? && !s.shared ==> Next(s, stride, op).render == s.render
    ensures op.Present? ==> Next(s, stride, op).target == s.target
    ensures op.Present? && Over(op, stride, k) ==> Next(s, stride, op).render[k] == s.target[k]
    ensures op.Erase? && Over(op, stride, k) ==> Next(s, stride, op).render[k] == op.color
  {
    hide Column, Row, Covers;
  }

  /** Over every run with two buffers: the screen shows what the last swap or clearing of the pixel put there, be it
      the target as it stood at that moment or the colour it was cleared with; later drawing does not show through. */
  lemma {:induction false} Shown(s: Screen, stride: nat, ops: seq<Op>, j: nat, n: nat, k: nat)
    requires s.Sound() && n <= |ops| && AllDrawable(ops)
    requires !s.shared && k < |s.target| && j < n && !ops[j].Draw? && Over(ops[j], stride, k)
    requires forall i :: j < i < n ==> ops[i].Draw? || !Over(ops[i], stride, k)
    ensures After(s, stride, ops, n).render[k] ==
            if ops[j].Present? then After(s, stride, ops, j).target[k] else ops[j].color
    decreases n
  {
    hide Over, Drawable, Next;
    NextPixel(After(s, stride, ops, n - 1), stride, ops[n - 1], k);
    if j < n - 1 {
      Shown(s, stride, ops, j, n - 1, k);
    }
  }

  /** Over every run with one buffer: the screen shows what the last drawing or clearing of the pixel put there, and
      swaps change nothing. */
  lemma {:induction false} ShownAtOnce(s: Screen, stride: nat, ops: seq<Op>, j: nat, n: nat, k: nat)
    requires s.Sound() && n <= |ops| && AllDrawable(ops)
    requires s.shared && k < |s.target| && j < n && !ops[j].Present? && Over(ops[j], stride, k)
    requires forall i :: j < i < n ==> ops[i].Present? || !Over(ops[i], stride, k)
    ensures var (c, q) := (Column(k, stride), Row(k, stride));
            After(s, stride, ops, n).render[k] ==
            if ops[j].Erase? then ops[j].color
            else Paint(ops[j].brush, ops[j].r.w, ops[j].r.h, c - ops[j].r.x, q - ops[j].r.y,
                       After(s, stride, ops, j).target[k])
    decreases n
  {
    hide Drawable, Next, Paint, Column, Row;
    NextPixel(After(s, stride, ops, n - 1), stride, ops[n - 1], k);
    NextShared(After(s, stride, ops, n - 1), stride, ops[n - 1], k);
    if j < n - 1 {
      ShownAtOnce(s, stride, ops, j, n - 1, k);
    }
  }

  lemma NextShared(s: Screen, stride: nat, op: Op, k: nat)
    requires s.Sound() && Drawable(op) && k < |s.target| && s.shared
    ensures op.Draw? && Over(op, stride, k) ==>
              Next(s, stride, op).render[k] ==
              Paint(op.brush, op.r.w, op.r.h, Column(k, stride) - op.r.x, Row(k, stride) - op.r.y, s.target[k])
    ensures op.Present? ==> Next(s, stride, op) == s
  {
    hide Column, Row, Paint, Covers;
    if op.Present? {
      CopyEnds(s.render, s.target, stride, op.r);
    }
  }

  // ----------------------------------------------------- the class follows the runs

  /** A call on the renderer, with the pixels or bits handed over. */
  datatype Command =
    | Fill(position: Vec, size: Vec, color: Pixel)
    | Picture(position: Vec, size: Vec, image: Option<seq<Pixel>>)
    | Bits(position: Vec, size: Vec, bitmap: Memory, color: Pixel)
    | BitsOver(position: Vec, size: Vec, bitmap: Memory, color: Pixel)
    | SwapOut(position: Vec, size: Vec)
    | ClearOut(position: Vec, size: Vec)
    | ClearTo(position: Vec, size: Vec, color: Pixel)

  const NOTHING := Draw(Rect(0, 0, 0, 0), Solid(0))

  /** What the call does; nothing, when it is handed a null pointer. */
  function OpOf(width: nat, height: nat, c: Command, background: Pixel): Op {
    var r := Clip(width, height, c.position, c.size);
    match c
    case Fill(_, _, color) => Draw(r, Solid(color))
    case Picture(_, _, image) => if image.None? then NOTHING else Draw(r, Image(image.value, Low32(c.size.x)))
    case Bits(_, _, bitmap, color) =>
      if bitmap.Null? then NOTHING else Draw(r, Bitmap(bitmap.bytes, Low32(c.size.x), color, background))
    case BitsOver(_, _, bitmap, color) =>
      if bitmap.Null? then NOTHING else Draw(r, Overlay(bitmap.bytes, Low32(c.size.x), color))
    case SwapOut(_, _) => Present(r)
    case ClearOut(_, _) => Erase(r, background)
    case ClearTo(_, _, color) => Erase(r, color)
  }

  function NextBackground(c: Command, background: Pixel): Pixel {
    if c.ClearTo? then c.color else background
  }

  function OpsOf(width: nat, height: nat, cs: seq<Command>, background: Pixel): (ops: seq<Op>)
    ensures |ops| == |cs|
  {
    if cs == [] then []
    else [OpOf(width, height, cs[0], background)] + OpsOf(width, height, cs[1..], NextBackground(cs[0], background))
  }

  ghost function ScreenOf(b: BasicRenderer): Screen
    reads b.render.pixels, b.target.pixels
  {
    Screen(b.render.pixels == b.target.pixels, b.render.pixels[..], b.target.pixels[..])
  }

  lemma NothingDrawn(s: Screen, stride: nat)
    requires s.Sound()
    ensures Next(s, stride, NOTHING) == s
  {
    PaintNothing(s.target, stride, NOTHING.r, NOTHING.brush);
  }

  /** One call. */
  method Perform(b: BasicRenderer, c: Command)
    requires b.Valid() && Drawable(OpOf(b.target.width, b.target.height, c, b.background))
    modifies b`background, b.render.pixels, b.target.pixels
    ensures var op := OpOf(b.target.width, b.target.height, c, old(b.background));
            ScreenOf(b) == Next(old(ScreenOf(b)), b.target.stride, op)
    ensures b.background == NextBackground(c, old(b.background))
  {
    hide Painted, Copied, Covers, Clip;
    NothingDrawn(ScreenOf(b), b.target.stride);
    var position;
    match c {
      case Fill(_, _, color) =>
        position := b.DrawRect(c.position, c.size, color);
      case Picture(_, _, image) =>
        var a: array?<Pixel> := null;
        if image.Some? {
          a := Buffer(image.value);
        }
        position := b.DrawPix(c.position, c.size, a);
      case Bits(_, _, bitmap, color) =>
        position := b.DrawBmp(c.position, c.size, bitmap, color);
      case BitsOver(_, _, bitmap, color) =>
        position := b.DrawBmpOver(c.position, c.size, bitmap, color);
      case SwapOut(_, _) =>
        b.Swap(c.position, c.size);
      case ClearOut(_, _) =>
        b.Clear(c.position, c.size);
      case ClearTo(_, _, color) =>
        b.background := color;
        b.Clear(c.position, c.size);
    }
  }

  /** A caller's buffer of pixels. */
  method Buffer(image: seq<Pixel>) returns (a: array<Pixel>)
    ensures fresh(a) && a[..] == image
  {
    a := new Pixel[|image|](i requires 0 <= i < |image| => image[i]);
  }

  /** Any sequence of calls, with one buffer or two: the renderer follows the machine of `After`, and afterwards a
      pixel on which the buffers agreed at first differs only if it is damaged. */
  method Run(b: BasicRenderer, cs: seq<Command>)
    requires b.Valid()
    requires AllDrawable(OpsOf(b.target.width, b.target.height, cs, b.background))
    modifies b`background, b.render.pixels, b.target.pixels
    ensures var ops := OpsOf(b.target.width, b.target.height, cs, old(b.background));
            && old(ScreenOf(b)).Sound()
            && ScreenOf(b) == After(old(ScreenOf(b)), b.target.stride, ops, |ops|)
            && forall k :: 0 <= k < b.target.pixels.Length && !Damaged(ops, b.target.stride, |ops|, k) ==>
                 old(b.render.pixels[k] == b.target.pixels[k]) ==> b.render.pixels[k] == b.target.pixels[k]
  {
    hide OpOf, Next, After, Drawable, Damaged;
    ghost var width, height, stride := b.target.width, b.target.height, b.target.stride;
    ghost var ops, start := OpsOf(width, height, cs, b.background), ScreenOf(b);
    assert cs[0..] == cs && ops[0..] == ops;
    AfterNone(start, stride, ops);
    var i := 0;
    while i < |cs|
      invariant 0 <= i <= |cs| && ops[i..] == OpsOf(width, height, cs[i..], b.background)
      invariant ScreenOf(b) == After(start, stride, ops, i)
    {
      OpsStep(width, height, cs, b.background, ops, i);
      AfterOne(start, stride, ops, i);
      Perform(b, cs[i]);
      i := i + 1;
    }
    forall k | 0 <= k < b.target.pixels.Length && start.render[k] == start.target[k] && !Damaged(ops, stride, |ops|, k)
      ensures b.render.pixels[k] == b.target.pixels[k]
    {
      AgreeUnlessDamaged(start, stride, ops, |ops|, k);
      assert ScreenOf(b).render[k] == ScreenOf(b).target[k];
    }
  }

  lemma OpsStep(width: nat, height: nat, cs: seq<Command>, background: Pixel, ops: seq<Op>, i: nat)
    requires i < |cs| == |ops| && ops[i..] == OpsOf(width, height, cs[i..], background)
    ensures ops[i] == OpOf(width, height, cs[i], background)
    ensures ops[i + 1..] == OpsOf(width, height, cs[i + 1..], NextBackground(cs[i], background))
  {
    hide OpOf;
    assert ops[i] == ops[i..][0] && ops[i + 1..] == ops[i..][1..];
    assert cs[i..][0] == cs[i] && cs[i..][1..] == cs[i + 1..];
  }

  lemma AfterNone(s: Screen, stride: nat, ops: seq<Op>)
    requires s.Sound() && AllDrawable(ops)
    ensures After(s, stride, ops, 0) == s
  {}

  lemma AfterOne(s: Screen, stride: nat, ops: seq<Op>, i: nat)
    requires s.Sound() && i < |ops| && AllDrawable(ops)
    ensures After(s, stride, ops, i + 1) == Next(After(s, stride, ops, i), stride, ops[i])
  {
    hide Next;
  }

  /** On a screen of one pixel, with two buffers: black is cleared to white, and the next swap brings black back. */
  lemma ClearLost()
    ensures var s, r := Screen(false, [0], [0]), Rect(0, 0, 1, 1);
            var cleared := Next(s, 1, Erase(r, 0xFFFFFF));
            cleared.render == [0xFFFFFF] && cleared.target == [0] && Next(cleared, 1, Present(r)) == s
  {
    assert Column(0, 1) == 0 && Row(0, 1) == 0;
  }

  /** A bitmap four pixels wide: the second line is read from the first line's bits. */
  lemma NarrowBitmap(b: bv8)
    ensures Paint(Bitmap([b], 4, 1, 0), 4, 2, 0, 1, 0) == Paint(Bitmap([b], 4, 1, 0), 4, 2, 0, 0, 0)
  {}
}
