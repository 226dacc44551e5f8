/** The 2D engine on flat VRAM: `vmsvga_copy_rect` and `vmsvga_fill_rect` (hw/display/vmware_vga.c). */
module Blit {
  import opened Words
  import opened Surfaces

  // ----- copy -----

  function Source(x0: int, y0: int, dst: Rect): Rect {
    Rect(x0, y0, dst.w, dst.h)
  }

  /** How far a byte of the destination lies behind the byte it is copied from. */
  function Shift(s: Surface, x0: int, y0: int, dst: Rect): int {
    s.Address(dst.x, dst.y) - s.Address(x0, y0)
  }

  lemma ShiftedBack(s: Surface, size: nat, x0: int, y0: int, dst: Rect, i: int)
    requires s.Fits(size) && Contained(s, Source(x0, y0, dst)) && Contained(s, dst) && CoversByte(s, dst, i)
    ensures 0 <= i - Shift(s, x0, y0, dst) < size
    ensures CoversByte(s, Source(x0, y0, dst), i - Shift(s, x0, y0, dst))
    ensures (i - Shift(s, x0, y0, dst)) / s.stride - y0 == i / s.stride - dst.y
  {
    var line, column := CoveredIsLine(s, dst, size, i);
    CoversLine(s, dst, size, line, column);
    CoversLine(s, Source(x0, y0, dst), size, line, column);
    Distribute(s.stride, dst.y, line);
    Distribute(s.stride, y0, line);
  }

  /** The bytes in `dst` fetched all at once from `shift` bytes before, as they were in `v`. */
  ghost function Moved(v: seq<Byte>, dst: int -> bool, shift: int): (v': seq<Byte>)
    ensures |v'| == |v|
  {
    seq(|v|, i requires 0 <= i < |v| => if dst(i) && 0 <= i - shift < |v| then v[i - shift] else v[i])
  }

  ghost function Bytes(s: Surface, r: Rect): int -> bool {
    i => CoversByte(s, r, i)
  }

  ghost function Copied(v: seq<Byte>, s: Surface, x0: int, y0: int, dst: Rect): (v': seq<Byte>)
    ensures |v'| == |v|
  {
    Moved(v, Bytes(s, dst), Shift(s, x0, y0, dst))
  }

  /** Moving the bytes `part` after the bytes `rest` moves them all, if `rest` holds none of the sources of `part`. */
  lemma MovedInParts(v: seq<Byte>, w: seq<Byte>, rest: int -> bool, part: int -> bool, all: int -> bool, shift: int)
    requires |w| == |v|
    requires forall i :: 0 <= i < |v| ==> (all(i) <==> part(i) || rest(i))
    requires forall i :: 0 <= i < |v| && part(i) ==> 0 <= i - shift < |v| && !rest(i - shift)
    requires forall i :: 0 <= i < |v| ==>
      w[i] == Moved(v, rest, shift)[if part(i) then i - shift else i]
    ensures w == Moved(v, all, shift)
  {
  }

  /** Pixel for pixel, the destination shows what the source showed before the copy. */
  lemma CopiedPixels(v: seq<Byte>, s: Surface, x0: int, y0: int, dst: Rect, dx: int, dy: int, b: int)
    requires s.Fits(|v|) && Contained(s, Source(x0, y0, dst)) && Contained(s, dst)
    requires 0 <= dx < dst.w && 0 <= dy < dst.h && 0 <= b < s.bypp
    ensures 0 <= s.Address(x0 + dx, y0 + dy) + b < |v|
    ensures 0 <= s.Address(dst.x + dx, dst.y + dy) + b < |v|
    ensures Copied(v, s, x0, y0, dst)[s.Address(dst.x + dx, dst.y + dy) + b] == v[s.Address(x0 + dx, y0 + dy) + b]
  {
    CoversPixel(s, dst, |v|, dst.x + dx, dst.y + dy, b);
    CoversPixel(s, dst, |v|, x0 + dx, y0 + dy, b);
    SameShift(s, x0, y0, dst, dx, dy);
  }

  /** Every other pixel of the surface, and every byte of padding, is left alone. */
  lemma CopiedElsewhere(v: seq<Byte>, s: Surface, x0: int, y0: int, dst: Rect, x: int, y: int, b: int, i: int)
    requires s.Fits(|v|)
    ensures 0 <= x < s.width && 0 <= y < s.height && 0 <= b < s.bypp && !Inside(dst, x, y) ==>
              && 0 <= s.Address(x, y) + b < |v|
              && Copied(v, s, x0, y0, dst)[s.Address(x, y) + b] == v[s.Address(x, y) + b]
    ensures 0 <= i < |v| && !CoversByte(s, dst, i) ==> Copied(v, s, x0, y0, dst)[i] == v[i]
  {
    if 0 <= x < s.width && 0 <= y < s.height && 0 <= b < s.bypp {
      CoversPixel(s, dst, |v|, x, y, b);
    }
  }

  lemma SameShift(s: Surface, x0: int, y0: int, dst: Rect, dx: int, dy: int)
    ensures s.Address(dst.x + dx, dst.y + dy) - s.Address(x0 + dx, y0 + dy) == Shift(s, x0, y0, dst)
  {
    Distribute(s.bypp, dst.x, dx);
    Distribute(s.bypp, x0, dx);
    Distribute(s.stride, dst.y, dy);
    Distribute(s.stride, y0, dy);
  }

  /** The C library's `memmove` and `memcpy` on offsets of one array. */
  method Memmove(a: array<Byte>, to: int, from: int, n: nat)
    requires 0 <= to && to + n <= a.Length && 0 <= from && from + n <= a.Length
    modifies a
    ensures forall i :: 0 <= i < a.Length ==> a[i] == old(if to <= i < to + n then a[from + (i - to)] else a[i])
  {
    forall i | to <= i < to + n {
      a[i] := a[from + (i - to)];
    }
  }

  /** Between them, line `y` of `dst` and the adjacent lines `rest` make up the lines `all`. */
  predicate AddsLine(dst: Rect, rest: Rect, all: Rect, y: int) {
    && rest.x == all.x == dst.x && rest.w == all.w == dst.w && all.h == rest.h + 1 && rest.h >= 0
    && ((y == all.y && rest.y == y + 1) || (rest.y == all.y && y == rest.y + rest.h))
  }

  lemma MovedByte(s: Surface, size: nat, x0: int, y0: int, dst: Rect, line: int, rest: Rect, all: Rect, i: int)
    requires s.Fits(size) && Contained(s, Source(x0, y0, dst)) && Contained(s, dst)
    requires 0 <= line < dst.h && AddsLine(dst, rest, all, dst.y + line)
    requires !(rest.y <= y0 + line < rest.y + rest.h)
    ensures var moved := 0 <= i - s.Address(dst.x, dst.y + line) < s.bypp * dst.w;
      && (CoversByte(s, all, i) <==> moved || CoversByte(s, rest, i))
      && (moved ==> var j := i - Shift(s, x0, y0, dst); 0 <= j < size && !CoversByte(s, rest, j))
  {
    var one := Rect(dst.x, dst.y + line, dst.w, 1);
    OneLine(s, one, size, i);
    if CoversByte(s, one, i) {
      ShiftedBack(s, size, x0, y0, dst, i);
    }
  }

  /** The bounds that one line of a copy or fill needs, and the step to the next one. */
  lemma LineBounds(s: Surface, r: Rect, size: nat, line: int)
    requires s.Fits(size) && Contained(s, r) && 0 <= line < r.h
    ensures 0 <= s.bypp * r.w
    ensures 0 <= s.Address(r.x, r.y + line) && s.Address(r.x, r.y + line) + s.bypp * r.w <= size
  {
    ColumnsFit(s, r, size);
    if s.bypp * r.w > 0 {
      CoversLine(s, r, size, line, 0);
      CoversLine(s, r, size, line, s.bypp * r.w - 1);
    } else {
      Scale(s.stride, 0, r.y + line);
      Scale(s.stride, r.y + line, s.height - 1);
      Distribute(s.stride, s.height, 1);
    }
  }

  lemma MovedNothing(v: seq<Byte>, s: Surface, r: Rect, shift: int)
    requires r.h == 0
    ensures Moved(v, Bytes(s, r), shift) == v
  {
  }

  /** One line of the copy: the loop body shared by both directions. */
  method CopyLine(vram: array<Byte>, s: Surface, x0: int, y0: int, dst: Rect, to: int, from: int,
                  ghost v: seq<Byte>, ghost line: int, ghost rest: Rect, ghost all: Rect)
    requires s.Fits(vram.Length) && Contained(s, Source(x0, y0, dst)) && Contained(s, dst)
    requires 0 <= line < dst.h && |v| == vram.Length
    requires to == s.Address(dst.x, dst.y + line) && from == s.Address(x0, y0 + line)
    requires AddsLine(dst, rest, all, dst.y + line)
    requires !(rest.y <= y0 + line < rest.y + rest.h)
    requires vram[..] == Moved(v, Bytes(s, rest), Shift(s, x0, y0, dst))
    modifies vram
    ensures vram[..] == Moved(v, Bytes(s, all), Shift(s, x0, y0, dst))
  {
    hide CoversByte, Surface.Address, Shift, AddsLine;
    LineBounds(s, Source(x0, y0, dst), vram.Length, line);
    LineBounds(s, dst, vram.Length, line);
    SameShift(s, x0, y0, dst, 0, line);
    Memmove(vram, to, from, s.bypp * dst.w);
    ghost var part := i => 0 <= i - to < s.bypp * dst.w;
    forall i | 0 <= i < |v|
      ensures Bytes(s, all)(i) <==> part(i) || Bytes(s, rest)(i)
      ensures part(i) ==> 0 <= i - (to - from) < |v| && !Bytes(s, rest)(i - (to - from))
    {
      MovedByte(s, |v|, x0, y0, dst, line, rest, all, i);
    }
    MovedInParts(v, vram[..], Bytes(s, rest), part, Bytes(s, all), to - from);
  }

  /** `vmsvga_copy_rect` without the redraw request: bottom-up when moving down, top-down otherwise. */
  method CopyRect(vram: array<Byte>, s: Surface, x0: int, y0: int, dst: Rect) returns (ok: bool)
    requires s.Fits(vram.Length)
    modifies vram
    ensures ok == (VerifyRect(s, Source(x0, y0, dst)) && VerifyRect(s, dst))
    ensures vram[..] == if ok then Copied(old(vram[..]), s, x0, y0, dst) else old(vram[..])
  {
    hide CoversByte, Bytes, Moved, Surface.Fits, Surface.Address;
    var line := dst.h;
    if !VerifyRect(s, Source(x0, y0, dst)) {
      return false;
    }
    if !VerifyRect(s, dst) {
      return false;
    }
    ghost var v, shift := vram[..], Shift(s, x0, y0, dst);
    MovedNothing(v, s, dst.(h := 0), shift);
    MovedNothing(v, s, dst.(y := dst.y + dst.h, h := 0), shift);
    var from, to;
    if dst.y > y0 {
      from := s.Address(x0, y0 + dst.h - 1);
      to := s.Address(dst.x, dst.y + dst.h - 1);
      while line > 0
        invariant 0 <= line <= dst.h
        invariant from == s.Address(x0, y0 + line - 1) && to == s.Address(dst.x, dst.y + line - 1)
        invariant vram[..] == Moved(v, Bytes(s, dst.(y := dst.y + line, h := dst.h - line)), shift)
      {
        CopyLine(vram, s, x0, y0, dst, to, from, v, line - 1,
                 dst.(y := dst.y + line, h := dst.h - line), dst.(y := dst.y + line - 1, h := dst.h - line + 1));
        line, from, to := line - 1, from - s.stride, to - s.stride;
        NextLine(s, x0, y0 + line - 1);
        NextLine(s, dst.x, dst.y + line - 1);
      }
    } else {
      from := s.Address(x0, y0);
      to := s.Address(dst.x, dst.y);
      while line > 0
        invariant 0 <= line <= dst.h
        invariant from == s.Address(x0, y0 + (dst.h - line)) && to == s.Address(dst.x, dst.y + (dst.h - line))
        invariant vram[..] == Moved(v, Bytes(s, dst.(h := dst.h - line)), shift)
      {
        CopyLine(vram, s, x0, y0, dst, to, from, v, dst.h - line, dst.(h := dst.h - line), dst.(h := dst.h - line + 1));
        NextLine(s, x0, y0 + (dst.h - line));
        NextLine(s, dst.x, dst.y + (dst.h - line));
        line, from, to := line - 1, from + s.stride, to + s.stride;
      }
    }
    return true;
  }

  // ----- fill -----

  /** The colour byte that belongs at offset `i`: its place within a pixel, counted from the start of the line. */
  ghost function ColourAt(s: Surface, colour: Uint32): int -> Byte
    requires 1 <= s.bypp <= 4
  {
    i => if s.stride > 0 then LittleEndianByte(colour, (i % s.stride) % s.bypp) else 0
  }

  ghost function Painted(v: seq<Byte>, covered: int -> bool, paint: int -> Byte): (v': seq<Byte>)
    ensures |v'| == |v|
  {
    seq(|v|, i requires 0 <= i < |v| => if covered(i) then paint(i) else v[i])
  }

  ghost function Filled(v: seq<Byte>, s: Surface, colour: Uint32, r: Rect): (v': seq<Byte>)
    requires 1 <= s.bypp <= 4
    ensures |v'| == |v|
  {
    Painted(v, Bytes(s, r), ColourAt(s, colour))
  }

  /**
   * After a fill, byte `b` of a pixel is byte `b` of the colour inside the rectangle, and unchanged outside; so is
   * every byte the rectangle does not cover, padding included.
   */
  lemma FilledPixels(v: seq<Byte>, s: Surface, colour: Uint32, r: Rect, x: int, y: int, b: nat)
    requires s.Fits(|v|) && 0 <= x < s.width && 0 <= y < s.height && b < s.bypp
    ensures 0 <= s.Address(x, y) + b < |v|
    ensures Filled(v, s, colour, r)[s.Address(x, y) + b]
         == if Inside(r, x, y) then LittleEndianByte(colour, b) else v[s.Address(x, y) + b]
    ensures forall i :: 0 <= i < |v| && !CoversByte(s, r, i) ==> Filled(v, s, colour, r)[i] == v[i]
  {
    CoversPixel(s, r, |v|, x, y, b);
    LineOf(s.bypp, x, b);
  }

  lemma NextModulo(j: nat, k: nat, m: nat)
    requires 0 < m && k == j % m
    ensures (j + 1) % m == if k + 1 == m then 0 else k + 1
  {
    var q := j / m;
    assert j == m * q + k;
    if k + 1 == m {
      Distribute(m, q, 1);
      LineOf(m, q + 1, 0);
    } else {
      LineOf(m, q, k + 1);
    }
  }

  /** Column `j` of a line of `r`: its colour byte depends on `j` alone. */
  lemma ColumnColour(s: Surface, size: nat, colour: Uint32, r: Rect, line: int, j: int)
    requires s.Fits(size) && Contained(s, r) && 0 <= line < r.h && 0 <= j < s.bypp * r.w
    ensures ColourAt(s, colour)(s.Address(r.x, r.y + line) + j) == LittleEndianByte(colour, j % s.bypp)
  {
    CoversLine(s, r, size, line, j);
    WithinPixel(s.bypp, r.x, j);
  }

  lemma WithinPixel(bypp: nat, x: int, j: nat)
    requires 0 < bypp
    ensures (bypp * x + j) % bypp == j % bypp
  {
    var q, r := j / bypp, j % bypp;
    assert j == bypp * q + r;
    Distribute(bypp, x, q);
    LineOf(bypp, x + q, r);
  }

  lemma LineAdded(s: Surface, size: nat, r: Rect, line: int, i: int)
    requires s.Fits(size) && Contained(s, r) && 0 <= line < r.h
    ensures CoversByte(s, r.(h := line + 1), i)
       <==> 0 <= i - s.Address(r.x, r.y + line) < s.bypp * r.w || CoversByte(s, r.(h := line), i)
  {
    OneLine(s, Rect(r.x, r.y + line, r.w, 1), size, i);
  }

  /** The first line, written byte by byte with the colour bytes cycling. */
  method FillFirstLine(vram: array<Byte>, s: Surface, colour: Uint32, r: Rect, fst: int)
    requires s.Fits(vram.Length) && Contained(s, r) && r.h > 0 && fst == s.Address(r.x, r.y)
    modifies vram
    ensures vram[..] == Filled(old(vram[..]), s, colour, r.(h := 1))
  {
    var col: seq<Byte> := [colour % 0x100, (colour / 0x100) % 0x100, (colour / 0x1_0000) % 0x100, (colour / 0x100_0000) % 0x100];
    var width := s.bypp * r.w;
    LineBounds(s, r, vram.Length, 0);
    var to, from, column := fst, 0, width;
    while column > 0
      invariant 0 <= column <= width && to == fst + (width - column)
      invariant 0 <= from < s.bypp && from == (width - column) % s.bypp
      invariant forall i :: 0 <= i < vram.Length ==>
        vram[i] == if fst <= i < to then ColourAt(s, colour)(i) else old(vram[i])
    {
      ColumnColour(s, vram.Length, colour, r, 0, width - column);
      NextModulo(width - column, from, s.bypp);
      vram[to] := col[from];
      to, from := to + 1, from + 1;
      if from == s.bypp {
        from := 0;
      }
      column := column - 1;
    }
    forall i | 0 <= i < vram.Length
      ensures Bytes(s, r.(h := 1))(i) <==> 0 <= i - fst < width
    {
      LineAdded(s, vram.Length, r, 0, i);
    }
  }

  lemma SameColumn(s: Surface, size: nat, colour: Uint32, r: Rect, line: int, j: int)
    requires s.Fits(size) && Contained(s, r) && 0 < line < r.h && 0 <= j < s.bypp * r.w
    ensures CoversByte(s, r.(h := line), s.Address(r.x, r.y) + j)
    ensures ColourAt(s, colour)(s.Address(r.x, r.y) + j) == ColourAt(s, colour)(s.Address(r.x, r.y + line) + j)
  {
    CoversLine(s, r.(h := line), size, 0, j);
    ColumnColour(s, size, colour, r, 0, j);
    ColumnColour(s, size, colour, r, line, j);
  }

  /** A later line, copied from the first one. */
  method FillNextLine(vram: array<Byte>, s: Surface, colour: Uint32, r: Rect, fst: int, to: int,
                      ghost v: seq<Byte>, ghost line: int)
    requires s.Fits(vram.Length) && Contained(s, r) && 0 < line < r.h
    requires fst == s.Address(r.x, r.y) && to == s.Address(r.x, r.y + line)
    requires vram[..] == Filled(v, s, colour, r.(h := line))
    modifies vram
    ensures vram[..] == Filled(v, s, colour, r.(h := line + 1))
  {
    hide CoversByte, LittleEndianByte, Contained, VerifyRect, Surface.Address, ColourAt;
    LineBounds(s, r, vram.Length, 0);
    LineBounds(s, r, vram.Length, line);
    Memmove(vram, to, fst, s.bypp * r.w);
    forall i | 0 <= i < |v|
      ensures vram[i] == Filled(v, s, colour, r.(h := line + 1))[i]
    {
      NextLineByte(s, |v|, colour, r, line, fst, to, i);
    }
  }

  lemma NextLineByte(s: Surface, size: nat, colour: Uint32, r: Rect, line: int, fst: int, to: int, i: int)
    requires s.Fits(size) && Contained(s, r) && 0 < line < r.h
    requires fst == s.Address(r.x, r.y) && to == s.Address(r.x, r.y + line)
    ensures Bytes(s, r.(h := line + 1))(i) <==> 0 <= i - to < s.bypp * r.w || Bytes(s, r.(h := line))(i)
    ensures 0 <= i - to < s.bypp * r.w ==>
      && 0 <= fst + (i - to) < size && Bytes(s, r.(h := line))(fst + (i - to))
      && ColourAt(s, colour)(fst + (i - to)) == ColourAt(s, colour)(i)
  {
    hide CoversByte, LittleEndianByte, VerifyRect, Surface.Address, ColourAt;
    LineAdded(s, size, r, line, i);
    if 0 <= i - to < s.bypp * r.w {
      CoversLine(s, r, size, 0, i - to);
      SameColumn(s, size, colour, r, line, i - to);
    }
  }

  /** `vmsvga_fill_rect` without the redraw request. */
  method FillRect(vram: array<Byte>, s: Surface, colour: Uint32, r: Rect) returns (ok: bool)
    requires s.Fits(vram.Length)
    modifies vram
    ensures ok == VerifyRect(s, r)
    ensures vram[..] == if ok then Filled(old(vram[..]), s, colour, r) else old(vram[..])
  {
    var line := r.h;
    if !VerifyRect(s, r) {
      return false;
    }
    ghost var v := vram[..];
    var fst := s.Address(r.x, r.y);
    if line != 0 {
      line := line - 1;
      FillFirstLine(vram, s, colour, r, fst);
      var to := fst;
      while line > 0
        invariant 0 <= line < r.h
        invariant to == s.Address(r.x, r.y + (r.h - 1 - line))
        invariant vram[..] == Filled(v, s, colour, r.(h := r.h - line))
      {
        NextLine(s, r.x, r.y + (r.h - 1 - line));
        to := to + s.stride;
        FillNextLine(vram, s, colour, r, fst, to, v, r.h - line);
        line := line - 1;
      }
    }
    return true;
  }
}
