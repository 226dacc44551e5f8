/** The display surface laid over VRAM, and rectangles on it (hw/display/vmware_vga.c). */
module Surfaces {
  import opened Words

  const MAX_WIDTH := 5120
  const MAX_HEIGHT := 2880

  /** The four ints of a rectangle command; nothing is assumed about their sign. */
  datatype Rect = Rect(x: int, y: int, w: int, h: int)

  /** `bypp` is bytes per pixel, `stride` bytes per line. */
  datatype Surface = Surface(width: nat, height: nat, bypp: nat, stride: nat) {
    /** Every line of the surface lies inside a VRAM of `size` bytes. */
    predicate Fits(size: nat) {
      && 1 <= bypp <= 4
      && bypp * width <= stride
      && stride * height <= size
    }

    /** Offset in VRAM of the first byte of pixel (x, y). */
    function Address(x: int, y: int): int {
      bypp * x + stride * y
    }

    function Whole(): Rect {
      Rect(0, 0, width, height)
    }
  }

  predicate Inside(r: Rect, x: int, y: int) {
    r.x <= x < r.x + r.w && r.y <= y < r.y + r.h
  }

  /** The tests of `vmsvga_verify_rect`, in its order. */
  predicate VerifyRect(s: Surface, r: Rect)
  {
    if r.x < 0 then false
    else if r.x > MAX_WIDTH then false
    else if r.w < 0 then false
    else if r.w > MAX_WIDTH then false
    else if r.x + r.w > s.width then false
    else if r.y < 0 then false
    else if r.y > MAX_HEIGHT then false
    else if r.h < 0 then false
    else if r.h > MAX_HEIGHT then false
    else if r.y + r.h > s.height then false
    else true
  }

  /** What the tests establish: the rectangle lies on the surface. */
  predicate Contained(s: Surface, r: Rect) {
    && 0 <= r.x && 0 <= r.w && r.x + r.w <= s.width
    && 0 <= r.y && 0 <= r.h && r.y + r.h <= s.height
  }

  /** The geometry limits, which hold for every coordinate and size of the rectangle separately. */
  predicate WithinLimits(r: Rect) {
    r.x <= 5120 && r.w <= 5120 && r.y <= 2880 && r.h <= 2880
  }

  /**
   * The tests accept exactly the rectangles on the surface that respect the geometry limits; on a surface within
   * the limits these are all rectangles on the surface.
   */
  lemma VerifyRectMeaning(s: Surface, r: Rect)
    ensures VerifyRect(s, r) <==> Contained(s, r) && WithinLimits(r)
    ensures s.width <= MAX_WIDTH && s.height <= MAX_HEIGHT ==> (VerifyRect(s, r) <==> Contained(s, r))
  {
  }

  /** The VRAM byte at offset `i` lies on a line and in a column of `r`. */
  predicate CoversByte(s: Surface, r: Rect, i: int) {
    && s.stride > 0
    && r.y <= i / s.stride < r.y + r.h
    && s.bypp * r.x <= i % s.stride < s.bypp * (r.x + r.w)
  }

  /** A line and a column within it are recovered from the offset by division. */
  lemma LineOf(stride: nat, line: int, column: nat)
    requires column < stride
    ensures (stride * line + column) / stride == line
    ensures (stride * line + column) % stride == column
  {
    var i := stride * line + column;
    SameQuotient(stride, i / stride, i % stride, line, column);
  }

  lemma SameQuotient(k: nat, q: int, r: nat, p: int, c: nat)
    requires r < k && c < k && k * q + r == k * p + c
    ensures q == p && r == c
  {
    Distribute(k, q, p);
    SmallMultiple(k, q - p);
  }

  lemma Distribute(k: int, a: int, b: int)
    ensures k * (a - b) == k * a - k * b
    ensures k * (a + b) == k * a + k * b
  {
  }

  lemma SmallMultiple(k: int, d: int)
    requires -k < k * d < k
    ensures d == 0
  {
    assert d >= 1 ==> k * d >= k;
    assert d <= -1 ==> k * d <= -k;
  }

  lemma Scale(k: nat, a: int, b: int)
    requires a <= b
    ensures k * a <= k * b
  {
  }

  lemma NextLine(s: Surface, x: int, y: int)
    ensures s.Address(x, y + 1) == s.Address(x, y) + s.stride
  {
    Distribute(s.stride, y, 1);
  }

  /** The columns of a rectangle on the surface are bytes of one line. */
  lemma ColumnsFit(s: Surface, r: Rect, size: nat)
    requires s.Fits(size) && Contained(s, r)
    ensures 0 <= s.bypp * r.x && 0 <= s.bypp * r.w
    ensures s.bypp * (r.x + r.w) == s.bypp * r.x + s.bypp * r.w <= s.stride
  {
    Distribute(s.bypp, r.x, r.w);
    Scale(s.bypp, r.x + r.w, s.width);
    Scale(s.bypp, 0, r.x);
    Scale(s.bypp, 0, r.w);
  }

  lemma LineInside(s: Surface, size: nat, line: int, column: int)
    requires s.Fits(size) && 0 <= line < s.height && 0 <= column < s.stride
    ensures 0 <= s.stride * line + column < size
  {
    Distribute(s.stride, line, 1);
    Scale(s.stride, line + 1, s.height);
    Scale(s.stride, 0, line);
  }

  /** Every column of every line of a rectangle on the surface is a byte of VRAM that it covers. */
  lemma CoversLine(s: Surface, r: Rect, size: nat, line: int, column: int)
    requires s.Fits(size) && Contained(s, r)
    requires 0 <= line < r.h && 0 <= column < s.bypp * r.w
    ensures 0 <= s.Address(r.x, r.y + line) + column < size
    ensures CoversByte(s, r, s.Address(r.x, r.y + line) + column)
    ensures (s.Address(r.x, r.y + line) + column) / s.stride == r.y + line
    ensures (s.Address(r.x, r.y + line) + column) % s.stride == s.bypp * r.x + column
  {
    ColumnsFit(s, r, size);
    LineOf(s.stride, r.y + line, s.bypp * r.x + column);
    LineInside(s, size, r.y + line, s.bypp * r.x + column);
  }

  /** Conversely a covered byte is a column of a line of the rectangle. */
  lemma CoveredIsLine(s: Surface, r: Rect, size: nat, i: int) returns (line: int, column: int)
    requires s.Fits(size) && Contained(s, r) && CoversByte(s, r, i)
    ensures 0 <= line < r.h && 0 <= column < s.bypp * r.w
    ensures i == s.Address(r.x, r.y + line) + column
  {
    ColumnsFit(s, r, size);
    line := i / s.stride - r.y;
    column := i % s.stride - s.bypp * r.x;
  }

  /** The bytes of a one-line rectangle are contiguous. */
  lemma OneLine(s: Surface, r: Rect, size: nat, i: int)
    requires s.Fits(size) && Contained(s, r) && r.h == 1
    ensures CoversByte(s, r, i) <==> 0 <= i - s.Address(r.x, r.y) < s.bypp * r.w
  {
    if CoversByte(s, r, i) {
      var line, column := CoveredIsLine(s, r, size, i);
    }
    if 0 <= i - s.Address(r.x, r.y) < s.bypp * r.w {
      CoversLine(s, r, size, 0, i - s.Address(r.x, r.y));
    }
  }

  /** Byte `b` of the pixel (x, y) of the surface is covered exactly when the pixel is inside. */
  lemma CoversPixel(s: Surface, r: Rect, size: nat, x: int, y: int, b: int)
    requires s.Fits(size) && 0 <= x < s.width && 0 <= y < s.height && 0 <= b < s.bypp
    ensures 0 <= s.Address(x, y) + b < size
    ensures CoversByte(s, r, s.Address(x, y) + b) <==> Inside(r, x, y)
    ensures (s.Address(x, y) + b) % s.stride == s.bypp * x + b
  {
    var pixel := Rect(x, y, 1, 1);
    CoversLine(s, pixel, size, 0, b);
    InColumns(s.bypp, r.x, x, b);
    InColumns(s.bypp, r.x + r.w, x, b);
  }

  lemma InColumns(bypp: nat, bound: int, x: int, b: int)
    requires 0 <= b < bypp
    ensures bypp * bound <= bypp * x + b <==> bound <= x
  {
    if bound <= x {
      Scale(bypp, bound, x);
    } else {
      Scale(bypp, x + 1, bound);
      Distribute(bypp, x, 1);
    }
  }
}
