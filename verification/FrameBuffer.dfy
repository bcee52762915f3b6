/** The frame buffer object: the fast fills of each format, clipping, scrolling and lines. */
module FrameBuffer {
  import opened Arithmetic
  import opened Pixels
  import opened Lines

  function Max(a: int, b: int): int { if a >= b then a else b }

  function Min(a: int, b: int): int { if a <= b then a else b }

  /** The constructor's 16-bit fields; rows of packed formats are rounded up to whole cells. */
  function Made(format: Format, width: int, height: int, stride: int): Geometry {
    var s := stride % 0x10000;
    Geometry(format, width % 0x10000, height % 0x10000,
      if IsHorizontal(format) then (s + 7) / 8 * 8 % 0x10000
      else if format == GS4_HMSB then (s + 1) / 2 * 2 % 0x10000 else s)
  }

  /** Rounding makes every geometry whole; it is usable exactly when the stride still covers the width. */
  lemma MadeIsWellFormed(format: Format, width: int, height: int, stride: int)
    ensures var g := Made(format, width, height, stride); WellFormed(g) <==> g.width <= g.stride
    ensures 0 <= width <= stride && stride + 7 < 0x10000 ==> WellFormed(Made(format, width, height, stride))
  {
    hide WellFormed;
    var s := stride % 0x10000;
    RoundsWhole(s);
    MadeWhole(Made(format, width, height, stride));
  }

  /** The fields are 16 bits wide, and the stride is the least whole number of cells that is
      not below the one given, if that fits. */
  lemma MadeFields(format: Format, width: int, height: int, stride: int)
    ensures var g := Made(format, width, height, stride);
            && g.format == format && g.width < 0x10000 && g.height < 0x10000 && g.stride < 0x10000
            && (width - g.width) % 0x10000 == 0 && (height - g.height) % 0x10000 == 0
    ensures 0 <= stride < 0xfff9 ==>
              var g := Made(format, width, height, stride);
              var pixels := match format case GS4_HMSB => 2 case MHLSB => 8 case MHMSB => 8 case _ => 1;
              stride <= g.stride < stride + pixels && g.stride % pixels == 0
  {
    RoundsWhole(stride % 0x10000);
    Truncates(width);
    Truncates(height);
  }

  lemma Truncates(x: int)
    ensures (x - x % 0x10000) % 0x10000 == 0
  {
    ModUnique(x - x % 0x10000, 0x10000, x / 0x10000, 0);
  }

  lemma RoundsWhole(s: nat)
    ensures (s + 7) / 8 * 8 % 0x10000 % 8 == 0 && (s + 1) / 2 * 2 % 0x10000 % 2 == 0
    ensures s <= (s + 7) / 8 * 8 <= s + 7 && s <= (s + 1) / 2 * 2 <= s + 1
  {
    RoundsTo8((s + 7) / 8);
    RoundsTo2((s + 1) / 2);
  }

  lemma RoundsTo8(q: nat)
    ensures q * 8 % 0x10000 % 8 == 0
  {
    ModMod(q * 8, 8, 0x2000);
    ModUnique(q * 8, 8, q, 0);
  }

  lemma RoundsTo2(q: nat)
    ensures q * 2 % 0x10000 % 2 == 0
  {
    ModMod(q * 2, 2, 0x8000);
    ModUnique(q * 2, 2, q, 0);
  }

  lemma MadeWhole(g: Geometry)
    requires (g.format == GS4_HMSB ==> g.stride % 2 == 0) && (IsHorizontal(g.format) ==> g.stride % 8 == 0)
    ensures WellFormed(g) <==> g.width <= g.stride
  {
  }

  /** Both pixels of a pair. */
  function NibblePair(col: Word): Word { ((col << 4) & 0xff) | (col & 0x0f) }

  lemma PairIsBoth(cell: Word, col: Word)
    ensures SetNibble(SetNibble(cell, 0, col), 1, col) == NibblePair(col)
    ensures NibblePair(Low4(col)) == NibblePair(col)
    ensures SetNibble(cell, 0, Low4(col)) == SetNibble(cell, 0, col) &&
            SetNibble(cell, 1, Low4(col)) == SetNibble(cell, 1, col)
    ensures Low4(Low4(col)) == Low4(col)
  {
  }

  class Canvas {
    const g: Geometry
    const buf: array<Word>

    /** The caller's buffer is large enough for the geometry. */
    ghost predicate Valid() { WellFormed(g) && Size(g) <= buf.Length }

    constructor (buf: array<Word>, width: int, height: int, format: Format, stride: int)
      ensures this.buf == buf && g == Made(format, width, height, stride)
    {
      this.buf := buf;
      g := Made(format, width, height, stride);
    }

    ghost function P(x: int, y: int): Word
      reads buf
    {
      Pixel(g, buf[..], x, y)
    }

    // ---------- One pixel ----------

    method SetPixelAt(x: nat, y: nat, col: Word)
      requires Valid() && Inside(g, x, y)
      modifies buf
      ensures buf[..] == SetPixel(g, old(buf[..]), x, y, col)
    {
      CellInSize(g, x, y);
      var index := Cell(g, x, y);
      buf[index] := SetSlot(g.format, buf[index], Slot(g, x, y), col);
    }

    method GetPixelAt(x: nat, y: nat) returns (col: Word)
      requires Valid() && Inside(g, x, y)
      ensures col == P(x, y)
    {
      CellInSize(g, x, y);
      return GetSlot(g.format, buf[Cell(g, x, y)], Slot(g, x, y));
    }

    // ---------- The fast fills ----------

    /** Writes v to cell b, where that amounts to setting pixel (x, y). */
    method Store(b: nat, v: Word, ghost x: nat, ghost y: nat, ghost col: Word, ghost before: seq<Word>,
                 ghost area: Area, ghost more: Area)
      requires Valid() && |before| == buf.Length && Inside(g, x, y) && b == Cell(g, x, y) && b < buf.Length
      requires v == SetSlot(g.format, buf[b], Slot(g, x, y), col)
      requires Painted(g, before, buf[..], area, Shade(g.format, col))
      requires AddsPixel(area, more, x, y)
      modifies buf
      ensures Painted(g, before, buf[..], more, Shade(g.format, col))
    {
      hide Painted, Cell, Slot, SetSlot, Shade, Size, AddsPixel;
      PaintsOneMore(g, before, buf[..], area, x, y, col, more);
      ghost var cells := SetPixel(g, buf[..], x, y, col);
      buf[b] := v;
      assert buf[..] == cells;
    }

    /** One column, top down; b is the cell of its first pixel. */
    method MonoColumn(b0: nat, x: nat, y: nat, h: nat, col: Word, ghost before: seq<Word>, ghost left: nat)
      requires Valid() && IsHorizontal(g.format) && |before| == buf.Length && left <= x < g.stride && y + h <= g.height
      requires b0 == x / 8 + y * (g.stride / 8)
      requires Painted(g, before, buf[..], ColumnWise(left, y, h, x - left, 0), Shade(g.format, col))
      modifies buf
      ensures Painted(g, before, buf[..], ColumnWise(left, y, h, x - left, h), Shade(g.format, col))
    {
      hide Painted, Cell, SetBit, Shade, Size, In, AddsPixel;
      var advance := g.stride / 8;
      var offset := if g.format == MHMSB then x % 8 else 7 - x % 8;
      var b := b0;
      for r := 0 to h
        invariant b == x / 8 + (y + r) * advance
        invariant Painted(g, before, buf[..], ColumnWise(left, y, h, x - left, r), Shade(g.format, col))
      {
        CellOfByte(g, x, y + r);
        ColumnWiseNext(left, x, y, h, x - left, r);
        assert offset == Slot(g, x, y + r);
        Store(b, SetBit(buf[b], offset, col != 0), x, y + r, col, before,
              ColumnWise(left, y, h, x - left, r), ColumnWise(left, y, h, x - left, r + 1));
        OneRowDown(y + r, advance);
        b := b + advance;
      }
    }

    method MonoHorizFillRect(x: nat, y: nat, w: nat, h: nat, col: Word)
      requires Valid() && IsHorizontal(g.format) && x + w <= g.stride && y + h <= g.height
      modifies buf
      ensures Painted(g, old(buf[..]), buf[..], Rect(x, y, w, h), Shade(g.format, col))
    {
      hide Painted, Cell, SetBit, Shade, Size, In, AddsPixel;
      ghost var before := buf[..];
      var advance := g.stride / 8;
      var xx, ww := x, w;
      NoColumns(x, y, h);
      NothingPainted(g, before, ColumnWise(x, y, h, 0, 0), Shade(g.format, col));
      while ww > 0
        invariant xx + ww == x + w && x <= xx && 0 <= ww
        invariant Painted(g, before, buf[..], ColumnWise(x, y, h, xx - x, 0), Shade(g.format, col))
      {
        MonoColumn(xx / 8 + y * advance, xx, y, h, col, before, x);
        ColumnDone(x, y, h, xx - x);
        PaintedSame(g, before, buf[..], ColumnWise(x, y, h, xx - x, h), Shade(g.format, col),
                    ColumnWise(x, y, h, xx + 1 - x, 0));
        xx, ww := xx + 1, ww - 1;
      }
      ColumnsDone(x, y, w, h);
      PaintedSame(g, before, buf[..], ColumnWise(x, y, h, w, 0), Shade(g.format, col), Rect(x, y, w, h));
    }

    method MvlsbFillRect(x: nat, y: nat, w: nat, h: nat, col: Word)
      requires Valid() && g.format == MVLSB && x + w <= g.stride && y + h <= g.height
      modifies buf
      ensures Painted(g, old(buf[..]), buf[..], Rect(x, y, w, h), Shade(g.format, col))
    {
      hide Painted, Cell, SetBit, Shade, Size;
      ghost var before := buf[..];
      var yy, hh := y, h;
      NothingPainted(g, before, RowWise(x, y, w, 0, 0), Shade(g.format, col));
      while hh > 0
        invariant yy + hh == y + h && y <= yy && 0 <= hh
        invariant Painted(g, before, buf[..], RowWise(x, y, w, yy - y, 0), Shade(g.format, col))
      {
        var b := yy / 8 * g.stride + x;
        var offset := yy % 8;
        for c := 0 to w
          invariant b == yy / 8 * g.stride + x + c
          invariant Painted(g, before, buf[..], RowWise(x, y, w, yy - y, c), Shade(g.format, col))
        {
          CellIs(g, x + c, yy);
          CellInSize(g, x + c, yy);
          RowWiseNext(x, y, w, yy - y, c, c + 1);
          Store(b, SetBit(buf[b], offset, col != 0), x + c, yy, col, before,
                RowWise(x, y, w, yy - y, c), RowWise(x, y, w, yy - y, c + 1));
          b := b + 1;
        }
        PaintedSame(g, before, buf[..], RowWise(x, y, w, yy - y, w), Shade(g.format, col),
                    RowWise(x, y, w, yy + 1 - y, 0));
        yy, hh := yy + 1, hh - 1;
      }
      PaintedSame(g, before, buf[..], RowWise(x, y, w, h, 0), Shade(g.format, col), Rect(x, y, w, h));
    }

    method Rgb565FillRect(x: nat, y: nat, w: nat, h: nat, col: Word)
      requires Valid() && g.format == RGB565 && x + w <= g.stride && y + h <= g.height
      modifies buf
      ensures Painted(g, old(buf[..]), buf[..], Rect(x, y, w, h), Shade(g.format, col))
    {
      hide Painted, Cell, Low16, Shade, Size;
      ghost var before := buf[..];
      var b := x + y * g.stride;
      NothingPainted(g, before, RowWise(x, y, w, 0, 0), Shade(g.format, col));
      for r := 0 to h
        invariant b == x + (y + r) * g.stride
        invariant Painted(g, before, buf[..], RowWise(x, y, w, r, 0), Shade(g.format, col))
      {
        for c := 0 to w
          invariant b == x + c + (y + r) * g.stride
          invariant Painted(g, before, buf[..], RowWise(x, y, w, r, c), Shade(g.format, col))
        {
          CellIs(g, x + c, y + r);
          CellInSize(g, x + c, y + r);
          RowWiseNext(x, y, w, r, c, c + 1);
          Store(b, Low16(col), x + c, y + r, col, before, RowWise(x, y, w, r, c), RowWise(x, y, w, r, c + 1));
          b := b + 1;
        }
        PaintedSame(g, before, buf[..], RowWise(x, y, w, r, w), Shade(g.format, col), RowWise(x, y, w, r + 1, 0));
        assert (y + r + 1) * g.stride == (y + r) * g.stride + g.stride;
        b := b + (g.stride - w);
      }
      PaintedSame(g, before, buf[..], RowWise(x, y, w, h, 0), Shade(g.format, col), Rect(x, y, w, h));
    }

    /** Writes a pair to cell b: pixels (x, y) and (x + 1, y). */
    method StorePair(b: nat, ghost x: nat, ghost y: nat, col: Word, ghost before: seq<Word>,
                     ghost area: Area, ghost half: Area, ghost more: Area)
      requires Valid() && g.format == GS4_HMSB && |before| == buf.Length && x % 2 == 0
      requires Inside(g, x, y) && Inside(g, x + 1, y) && b == Cell(g, x, y) == Cell(g, x + 1, y) && b < buf.Length
      requires Painted(g, before, buf[..], area, Shade(g.format, col))
      requires AddsPixel(area, half, x, y) && AddsPixel(half, more, x + 1, y)
      modifies buf
      ensures Painted(g, before, buf[..], more, Shade(g.format, col))
    {
      hide Painted, Cell, SetNibble, Shade, Size, NibblePair, AddsPixel;
      ghost var was := buf[..];
      ghost var one := SetPixel(g, was, x, y, col);
      ghost var two := SetPixel(g, one, x + 1, y, col);
      PaintsOneMore(g, before, was, area, x, y, col, half);
      PaintsOneMore(g, before, one, half, x + 1, y, col, more);
      PairIsBoth(buf[b], col);
      assert Slot(g, x, y) == 0 && Slot(g, x + 1, y) == 1;
      buf[b] := NibblePair(col);
      assert two == was[b := NibblePair(col)];
      assert buf[..] == two;
    }

    /** The whole pairs of a row, as memset writes them: n cells from the one of pixel (x + c, y + r). */
    method Gs4Pairs(pair: nat, x: nat, y: nat, w: nat, col: Word, ghost before: seq<Word>, ghost r: nat,
                    ghost base: nat, ghost c: nat, n: nat)
      requires Valid() && g.format == GS4_HMSB && |before| == buf.Length && x + w <= g.stride && y + r < g.height
      requires base == (y + r) * (g.stride / 2) && (x + c) % 2 == 0 && pair == (x + c) / 2 + base && c + 2 * n <= w
      requires Painted(g, before, buf[..], RowWise(x, y, w, r, c), Shade(g.format, col))
      modifies buf
      ensures Painted(g, before, buf[..], RowWise(x, y, w, r, c + 2 * n), Shade(g.format, col))
    {
      hide Painted, Cell, Shade, Size, In, AddsPixel;
      for k := 0 to n
        invariant Painted(g, before, buf[..], RowWise(x, y, w, r, c + 2 * k), Shade(g.format, col))
      {
        ghost var d := c + 2 * k;
        RowWiseNext(x, y, w, r, d, d + 1);
        RowWiseNext(x, y, w, r, d + 1, d + 2);
        CellOfPair(g, x + d, y + r, base);
        CellOfPair(g, x + d + 1, y + r, base);
        StorePair(pair + k, x + d, y + r, col, before,
                  RowWise(x, y, w, r, d), RowWise(x, y, w, r, d + 1), RowWise(x, y, w, r, d + 2));
      }
    }

    /** One pixel of a row, in the half of its pair that x + c says. */
    method Gs4Pixel(pair: nat, x: nat, y: nat, w: nat, col: Word, ghost before: seq<Word>, ghost r: nat,
                    ghost base: nat, c: nat)
      requires Valid() && g.format == GS4_HMSB && |before| == buf.Length && x + w <= g.stride && y + r < g.height &&
               c < w
      requires base == (y + r) * (g.stride / 2) && pair == (x + c) / 2 + base
      requires Painted(g, before, buf[..], RowWise(x, y, w, r, c), Shade(g.format, col))
      modifies buf
      ensures Painted(g, before, buf[..], RowWise(x, y, w, r, c + 1), Shade(g.format, col))
    {
      hide Painted, Cell, SetNibble, Shade, Size, In, AddsPixel;
      CellOfPair(g, x + c, y + r, base);
      RowWiseNext(x, y, w, r, c, c + 1);
      Store(pair, SetNibble(buf[pair], (x + c) % 2, col), x + c, y + r, col, before,
            RowWise(x, y, w, r, c), RowWise(x, y, w, r, c + 1));
    }

    /** One row from the cell of its first pixel; the odd pixel on the left, the pairs, the
        odd pixel on the right. Ends at the cell of the next row's first pixel. */
    method Gs4FillRow(start: nat, x: nat, y: nat, w: nat, col: Word, ghost before: seq<Word>, ghost r: nat,
                      ghost base: nat) returns (pair: nat)
      requires Valid() && g.format == GS4_HMSB && |before| == buf.Length && x + w <= g.stride && y + r < g.height
      requires base == (y + r) * (g.stride / 2) && start == x / 2 + base
      requires Painted(g, before, buf[..], RowWise(x, y, w, r, 0), Shade(g.format, col))
      requires x % 2 == 1 ==> w > 0
      modifies buf
      ensures pair == x / 2 + base + g.stride / 2
      ensures Painted(g, before, buf[..], RowWise(x, y, w, r, w), Shade(g.format, col))
    {
      hide Painted, Cell, SetNibble, Shade, Size, WellFormed, In, AddsPixel;
      WholeStride(g);
      RowParts(x, w, g.stride);
      pair := start;
      var ww := w;
      var oddX := x % 2 == 1;
      if oddX && ww > 0 {
        Gs4Pixel(pair, x, y, w, col, before, r, base, 0);
        pair, ww := pair + 1, ww - 1;
      }
      Gs4Pairs(pair, x, y, w, col, before, r, base, w - ww, ww / 2);
      pair := pair + ww / 2;
      if ww % 2 == 1 {
        Gs4Pixel(pair, x, y, w, col, before, r, base, w - 1);
        if !oddX { pair := pair + 1; }
      }
      pair := pair + (g.stride - w) / 2;
    }

    method Gs4HmsbFillRect(x: nat, y: nat, w: nat, h: nat, col0: Word)
      requires Valid() && g.format == GS4_HMSB && x + w <= g.stride && y + h <= g.height
      requires x % 2 == 1 ==> w > 0
      modifies buf
      ensures Painted(g, old(buf[..]), buf[..], Rect(x, y, w, h), Shade(g.format, col0))
    {
      hide Painted, Low4, Size;
      ghost var before := buf[..];
      var col := Low4(col0);
      PairIsBoth(0, col0);
      assert Shade(g.format, col) == Shade(g.format, col0);
      var pair := (x + y * g.stride) / 2;
      if h > 0 { PackedStart(g, x, y); }
      NothingPainted(g, before, RowWise(x, y, w, 0, 0), Shade(g.format, col));
      for r := 0 to h
        invariant r < h ==> pair == x / 2 + (y + r) * (g.stride / 2)
        invariant Painted(g, before, buf[..], RowWise(x, y, w, r, 0), Shade(g.format, col))
      {
        ghost var half := g.stride / 2;
        assert (y + r + 1) * half == (y + r) * half + half;
        pair := Gs4FillRow(pair, x, y, w, col, before, r, (y + r) * half);
        PaintedSame(g, before, buf[..], RowWise(x, y, w, r, w), Shade(g.format, col), RowWise(x, y, w, r + 1, 0));
      }
      PaintedSame(g, before, buf[..], RowWise(x, y, w, h, 0), Shade(g.format, col), Rect(x, y, w, h));
    }

    /** The fill of the current format. */
    method FormatFillRect(x: nat, y: nat, w: nat, h: nat, col: Word)
      requires Valid() && x + w <= g.stride && y + h <= g.height && (x % 2 == 1 ==> w > 0)
      modifies buf
      ensures Painted(g, old(buf[..]), buf[..], Rect(x, y, w, h), Shade(g.format, col))
    {
      hide Painted;
      match g.format
      case MVLSB => MvlsbFillRect(x, y, w, h, col);
      case RGB565 => Rgb565FillRect(x, y, w, h, col);
      case GS4_HMSB => Gs4HmsbFillRect(x, y, w, h, col);
      case _ => MonoHorizFillRect(x, y, w, h, col);
    }

    method Fill(col: Word)
      requires Valid()
      modifies buf
      ensures Painted(g, old(buf[..]), buf[..], Rect(0, 0, g.width, g.height), Shade(g.format, col))
    {
      FormatFillRect(0, 0, g.width, g.height, col);
    }

    /** Exactly the pixels of the rectangle that lie on the canvas get the colour. */
    method FillRect(x: int, y: int, w: int, h: int, col: Word)
      requires Valid()
      modifies buf
      ensures Painted(g, old(buf[..]), buf[..], Clipped(g.width, g.height, x, y, w, h), Shade(g.format, col))
    {
      hide Painted;
      if h < 1 || w < 1 || x + w <= 0 || y + h <= 0 || y >= g.height || x >= g.width {
        NothingPainted(g, buf[..], Clipped(g.width, g.height, x, y, w, h), Shade(g.format, col));
        return;
      }
      var xend, yend := Min(g.width, x + w), Min(g.height, y + h);
      var x0, y0 := Max(x, 0), Max(y, 0);
      ghost var before := buf[..];
      FormatFillRect(x0, y0, xend - x0, yend - y0, col);
      PaintedSame(g, before, buf[..], Rect(x0, y0, xend - x0, yend - y0), Shade(g.format, col),
                  Clipped(g.width, g.height, x, y, w, h));
    }

    // ---------- Scrolling ----------

    /** A move of every pixel at once: each gets what lay at (-xstep, -ystep) from it, if that
        was on the canvas, and the rest stay. The call is made where its loops end. */
    method Scroll(xstep: int, ystep: int)
      requires Valid() && ScrollEnds(g.width, g.height, xstep, ystep)
      modifies buf
      ensures ScrolledAll(g, old(buf[..]), buf[..], xstep, ystep)
    {
      hide Pixel, SetPixel, Size;
      ghost var before := buf[..];
      var sx, xend, dx, y, yend, dy;
      if xstep < 0 { sx, xend, dx := 0, g.width + xstep, 1; } else { sx, xend, dx := g.width - 1, xstep - 1, -1; }
      if ystep < 0 { y, yend, dy := 0, g.height + ystep, 1; } else { y, yend, dy := g.height - 1, ystep - 1, -1; }
      assert (sx, xend, dx) == (ScrollStart(g.width, xstep), ScrollEnd(g.width, xstep), ScrollDir(xstep));
      assert (y, yend, dy) == (ScrollStart(g.height, ystep), ScrollEnd(g.height, ystep), ScrollDir(ystep));
      while y != yend
        invariant dy == 1 ==> 0 <= y <= yend
        invariant dy == -1 ==> yend <= y < g.height
        invariant ScrolledTo(g, before, buf[..], xstep, ystep, dx, dy, sx, y)
        decreases if dy == 1 then yend - y else y - yend
      {
        var x := sx;
        while x != xend
          invariant dx == 1 ==> 0 <= x <= xend
          invariant dx == -1 ==> xend <= x < g.width
          invariant ScrolledTo(g, before, buf[..], xstep, ystep, dx, dy, x, y)
          decreases if dx == 1 then xend - x else x - xend
        {
          ScrollStep(g, before, buf[..], xstep, ystep, dx, dy, x, y);
          var col := GetPixelAt(x - xstep, y - ystep);
          SetPixelAt(x, y, col);
          x := x + dx;
        }
        RowScrolled(g, before, buf[..], xstep, ystep, dx, dy, sx, x, y);
        y := y + dy;
      }
      AllScrolled(g, before, buf[..], xstep, ystep, dx, dy, sx, y);
    }

    // ---------- Lines ----------

    method Plot(x: int, y: int, col: Word, ghost l: Line, ghost n: nat, ghost before: seq<Word>)
      requires Valid() && (x, y) == Point(l, n)
      requires PlottedUpTo(g, before, buf[..], l, n, Shade(g.format, col))
      modifies buf
      ensures PlottedUpTo(g, before, buf[..], l, n + 1, Shade(g.format, col))
    {
      PlotOneMore(g, before, buf[..], l, n, col);
      if 0 <= x < g.width && 0 <= y < g.height { SetPixelAt(x, y, col); }
    }

    /** Exactly the pixels of the line that lie on the canvas get the colour; the inner loop
        runs at most once per step. */
    method DrawLine(ax: int, ay: int, x2: int, y2: int, col: Word)
      requires Valid()
      modifies buf
      ensures LineDrawn(g, old(buf[..]), buf[..], Line(ax, ay, x2, y2), Shade(g.format, col))
    {
      hide PlottedUpTo, LineDrawn, Shade, MajorAt, MinorAt, ErrorAt, Point;
      ghost var before := buf[..];
      ghost var l := Line(ax, ay, x2, y2);
      var x1, y1 := ax, ay;
      var dx := x2 - ax;
      var sx := 1;
      if !(dx > 0) { dx, sx := -dx, -1; }
      var dy := y2 - ay;
      var sy := 1;
      if !(dy > 0) { dy, sy := -dy, -1; }
      var steep := dy > dx;
      if steep {
        x1, y1 := y1, x1;
        dx, dy := dy, dx;
        sx, sy := sy, sx;
      }
      assert dx == Major(l) && dy == Minor(l) && steep == Steep(l) && sx == MajorSign(l) && sy == MinorSign(l);
      hide Major, Minor, Steep, MajorSign, MinorSign;
      var e := 2 * dy - dx;
      WalkStarts(l);
      PlottedNone(g, before, l, Shade(g.format, col));
      for i := 0 to dx
        invariant x1 == MajorAt(l, i) && y1 == MinorAt(l, i) && e == ErrorAt(l, i)
        invariant PlottedUpTo(g, before, buf[..], l, i, Shade(g.format, col))
      {
        WalkPlots(l, i);
        if steep { Plot(y1, x1, col, l, i, before); } else { Plot(x1, y1, col, l, i, before); }
        WalkStep(l, i);
        ghost var e0, y0, turns := e, y1, 0;
        while e >= 0
          invariant turns == 0 ==> e == e0 && y1 == y0
          invariant turns == 1 ==> e == e0 - 2 * dx && y1 == y0 + sy && e0 >= 0
          invariant 0 <= turns <= 1
          decreases 1 - turns
        {
          y1 := y1 + sy;
          e := e - 2 * dx;
          turns := turns + 1;
        }
        x1 := x1 + sx;
        e := e + 2 * dy;
      }
      LineEnds(l);
      Plot(x2, y2, col, l, Major(l), before);
      AllPlotted(g, before, buf[..], l, Shade(g.format, col));
    }
  }

  lemma CellOfPair(g: Geometry, x: nat, y: nat, base: nat)
    requires WellFormed(g) && g.format == GS4_HMSB && Inside(g, x, y) && base == y * (g.stride / 2)
    ensures Cell(g, x, y) == x / 2 + base && Cell(g, x, y) < Size(g) && Slot(g, x, y) == x % 2
  {
    CellIs(g, x, y);
    CellInSize(g, x, y);
  }

  lemma CellOfByte(g: Geometry, x: nat, y: nat)
    requires WellFormed(g) && IsHorizontal(g.format) && Inside(g, x, y)
    ensures Cell(g, x, y) == x / 8 + y * (g.stride / 8) && Cell(g, x, y) < Size(g)
  {
    CellIs(g, x, y);
    CellInSize(g, x, y);
  }

  lemma OneRowDown(y: nat, pitch: nat)
    ensures (y + 1) * pitch == y * pitch + pitch
  {
  }

  lemma NoColumns(x: int, y: int, h: int)
    ensures forall px, py :: !In(ColumnWise(x, y, h, 0, 0), px, py)
  {
  }

  lemma ColumnWiseNext(left: int, x: int, y: int, h: int, c: int, r: int)
    requires 0 <= r < h && x == left + c
    ensures AddsPixel(ColumnWise(left, y, h, c, r), ColumnWise(left, y, h, c, r + 1), x, y + r)
  {
    forall px, py
      ensures In(ColumnWise(left, y, h, c, r + 1), px, py) <==>
                In(ColumnWise(left, y, h, c, r), px, py) || (px == x && py == y + r)
    {
      if px == x { } else { }
    }
  }

  lemma ColumnDone(x: int, y: int, h: int, c: int)
    requires c >= 0
    ensures forall px, py :: In(ColumnWise(x, y, h, c + 1, 0), px, py) <==> In(ColumnWise(x, y, h, c, h), px, py)
  {
  }

  lemma ColumnsDone(x: int, y: int, w: int, h: int)
    ensures forall px, py :: In(Rect(x, y, w, h), px, py) <==> In(ColumnWise(x, y, h, w, 0), px, py)
  {
  }

  lemma RowWiseNext(x: int, y: int, w: int, r: int, c: int, c': int)
    requires 0 <= c < w && c' == c + 1
    ensures AddsPixel(RowWise(x, y, w, r, c), RowWise(x, y, w, r, c'), x + c, y + r)
  {
    forall px, py
      ensures In(RowWise(x, y, w, r, c'), px, py) <==>
                In(RowWise(x, y, w, r, c), px, py) || (px == x + c && py == y + r)
    {
      if py == y + r { } else { }
    }
  }

  lemma WholeStride(g: Geometry)
    requires WellFormed(g) && g.format == GS4_HMSB
    ensures g.stride % 2 == 0
  {
  }

  /** The pixels left of the pairs, the pairs and the one on the right add up to a row. */
  lemma RowParts(x: nat, w: nat, stride: nat)
    requires w <= stride && stride % 2 == 0 && (x % 2 == 1 ==> w > 0)
    ensures var left := x % 2;
            var ww := w - left;
            && (x + left) / 2 == x / 2 + left && (x + left) % 2 == 0
            && (ww % 2 == 1 ==> (x + w - 1) / 2 == x / 2 + left + ww / 2 && (x + w - 1) % 2 == 0)
            && left + ww / 2 + (if ww % 2 == 1 && left == 0 then 1 else 0) + (stride - w) / 2 == stride / 2
  {
  }

  lemma PackedStart(g: Geometry, x: nat, y: nat)
    requires WellFormed(g) && g.format == GS4_HMSB
    ensures (x + y * g.stride) / 2 == x / 2 + y * (g.stride / 2)
  {
    var p := g.stride / 2;
    assert y * (2 * p) == 2 * (y * p);
    ModUnique(x + y * g.stride, 2, y * p + x / 2, x % 2);
  }

  // ---------- The fills against setting pixels one by one ----------

  /** setpixel on the first r rows of the rectangle and c pixels of the next. */
  function SetPixels(g: Geometry, cells: seq<Word>, x: int, y: int, w: nat, r: nat, c: nat, col: Word): seq<Word>
    decreases r, c
  {
    if c > 0 then SetPixel(g, SetPixels(g, cells, x, y, w, r, c - 1, col), x + c - 1, y + r, col)
    else if r > 0 then SetPixels(g, cells, x, y, w, r - 1, w, col)
    else cells
  }

  lemma {:induction false} SetPixelsPaint(g: Geometry, cells: seq<Word>, x: nat, y: nat, w: nat, r: nat, c: nat,
                                          col: Word)
    requires Fits(g, cells) && x + w <= g.stride && c <= w && y + r <= g.height && (c > 0 ==> y + r < g.height)
    ensures Painted(g, cells, SetPixels(g, cells, x, y, w, r, c, col), RowWise(x, y, w, r, c), Shade(g.format, col))
    decreases r, c
  {
    hide Painted, SetPixel, Shade, Fits, AddsPixel;
    if c > 0 {
      SetPixelsPaint(g, cells, x, y, w, r, c - 1, col);
      RowWiseNext(x, y, w, r, c - 1, c);
      PaintsOneMore(g, cells, SetPixels(g, cells, x, y, w, r, c - 1, col), RowWise(x, y, w, r, c - 1),
                    x + c - 1, y + r, col, RowWise(x, y, w, r, c));
    } else if r > 0 {
      SetPixelsPaint(g, cells, x, y, w, r - 1, w, col);
      PaintedSame(g, cells, SetPixels(g, cells, x, y, w, r, 0, col), RowWise(x, y, w, r - 1, w), Shade(g.format, col),
                  RowWise(x, y, w, r, 0));
    } else {
      NothingPainted(g, cells, RowWise(x, y, w, 0, 0), Shade(g.format, col));
    }
  }

  /** A buffer of cells painted in the rectangle is the one that setting its pixels one by one
      gives, to the last bit. */
  lemma FillIsSetPixels(g: Geometry, before: seq<Word>, cells: seq<Word>, x: nat, y: nat, w: nat, h: nat, col: Word)
    requires Fits(g, before) && Clean(g.format, before) && x + w <= g.stride && y + h <= g.height
    requires Painted(g, before, cells, Rect(x, y, w, h), Shade(g.format, col))
    ensures cells == SetPixels(g, before, x, y, w, h, 0, col)
  {
    hide Painted, Shade, SetPixels, Fits;
    SetPixelsPaint(g, before, x, y, w, h, 0, col);
    var pixelwise := SetPixels(g, before, x, y, w, h, 0, col);
    PaintedSame(g, before, pixelwise, RowWise(x, y, w, h, 0), Shade(g.format, col), Rect(x, y, w, h));
    PaintedDetermines(g, before, cells, pixelwise, Rect(x, y, w, h), Shade(g.format, col));
  }

  // ---------- Scrolling as a simultaneous move ----------

  predicate OnCanvas(g: Geometry, x: int, y: int) { 0 <= x < g.width && 0 <= y < g.height }

  lemma InsideCanvas(g: Geometry, x: int, y: int)
    requires WellFormed(g) && OnCanvas(g, x, y)
    ensures Inside(g, x, y)
  {
  }

  /** What pixel (x, y) holds after the move. */
  function Target(g: Geometry, before: seq<Word>, xstep: int, ystep: int, x: int, y: int): Word {
    if OnCanvas(g, x, y) && OnCanvas(g, x - xstep, y - ystep) then Pixel(g, before, x - xstep, y - ystep)
    else Pixel(g, before, x, y)
  }

  ghost predicate ScrolledAll(g: Geometry, before: seq<Word>, cells: seq<Word>, xstep: int, ystep: int) {
    RestKept(g, before, cells) && forall x, y :: Inside(g, x, y) ==>
      Pixel(g, cells, x, y) == Target(g, before, xstep, ystep, x, y)
  }

  /** After a scroll every pixel whose new place is on the canvas is there, and only the pixels
      of the canvas without a source there, and those off it, are what they were. */
  lemma ScrollMoves(g: Geometry, before: seq<Word>, cells: seq<Word>, xstep: int, ystep: int, x: int, y: int)
    requires WellFormed(g) && ScrolledAll(g, before, cells, xstep, ystep)
    ensures OnCanvas(g, x, y) && OnCanvas(g, x + xstep, y + ystep) ==>
              Pixel(g, cells, x + xstep, y + ystep) == Pixel(g, before, x, y)
    ensures Inside(g, x, y) && !(OnCanvas(g, x, y) && OnCanvas(g, x - xstep, y - ystep)) ==>
              Pixel(g, cells, x, y) == Pixel(g, before, x, y)
  {
    hide Pixel;
    if OnCanvas(g, x + xstep, y + ystep) { InsideCanvas(g, x + xstep, y + ystep); }
  }

  /** a comes before b in the direction of travel. */
  predicate Before(a: int, b: int, d: int) { if d == 1 then a < b else a > b }

  predicate Visited(px: int, py: int, dx: int, dy: int, x: int, y: int) {
    Before(py, y, dy) || (py == y && Before(px, x, dx))
  }

  function Underway(g: Geometry, before: seq<Word>, xstep: int, ystep: int, visited: bool, x: int, y: int): Word {
    if visited then Target(g, before, xstep, ystep, x, y) else Pixel(g, before, x, y)
  }

  /** The pixels visited before (x, y) have moved, the others not. */
  ghost predicate ScrolledTo(g: Geometry, before: seq<Word>, cells: seq<Word>, xstep: int, ystep: int,
                             dx: int, dy: int, x: int, y: int) {
    RestKept(g, before, cells) && forall px, py :: Inside(g, px, py) ==>
      Pixel(g, cells, px, py) == Underway(g, before, xstep, ystep, Visited(px, py, dx, dy, x, y), px, py)
  }

  ghost predicate Directed(step: int, d: int) { d == if step < 0 then 1 else -1 }

  /** The source of the next pixel has not been overwritten, and copying it takes one step. */
  lemma ScrollStep(g: Geometry, before: seq<Word>, cells: seq<Word>, xstep: int, ystep: int, dx: int, dy: int, x: int,
                   y: int)
    requires Fits(g, before) && Directed(xstep, dx) && Directed(ystep, dy)
    requires OnCanvas(g, x, y) && OnCanvas(g, x - xstep, y - ystep)
    requires ScrolledTo(g, before, cells, xstep, ystep, dx, dy, x, y)
    ensures var after := SetPixel(g, cells, x, y, Pixel(g, cells, x - xstep, y - ystep));
            ScrolledTo(g, before, after, xstep, ystep, dx, dy, x + dx, y)
  {
    hide Pixel, SetPixel, Size, Shade, RestKept, Inside;
    InsideCanvas(g, x, y);
    InsideCanvas(g, x - xstep, y - ystep);
    var col := Pixel(g, cells, x - xstep, y - ystep);
    assert !Visited(x - xstep, y - ystep, dx, dy, x, y);
    assert col == Pixel(g, before, x - xstep, y - ystep);
    PixelShade(g, before, x - xstep, y - ystep);
    var after := SetPixel(g, cells, x, y, col);
    KeptLength(g, before, cells);
    SetPixelKeepsRest(g, before, cells, x, y, col);
    forall px, py | Inside(g, px, py)
      ensures Pixel(g, after, px, py) == Underway(g, before, xstep, ystep, Visited(px, py, dx, dy, x + dx, y), px, py)
    {
      SetPixelChangesOne(g, cells, x, y, col, px, py);
    }
  }

  lemma PixelShade(g: Geometry, cells: seq<Word>, x: int, y: int)
    requires Fits(g, cells) && Inside(g, x, y)
    ensures Shade(g.format, Pixel(g, cells, x, y)) == Pixel(g, cells, x, y)
  {
    hide Shade, GetSlot, Cell, Slot, Size;
    CellInSize(g, x, y);
    ShadeOfPixel(g.format, cells[Cell(g, x, y)], Slot(g, x, y));
  }

  /** Pixels past the end of a row have no source, so the row is done. */
  lemma RowScrolled(g: Geometry, before: seq<Word>, cells: seq<Word>, xstep: int, ystep: int, dx: int, dy: int, sx: int,
                    x: int, y: int)
    requires Directed(xstep, dx) && Directed(ystep, dy)
    requires sx == (if xstep < 0 then 0 else g.width - 1) && x == if xstep < 0 then g.width + xstep else xstep - 1
    requires ScrolledTo(g, before, cells, xstep, ystep, dx, dy, x, y)
    ensures ScrolledTo(g, before, cells, xstep, ystep, dx, dy, sx, y + dy)
  {
    hide Pixel;
  }

  lemma AllScrolled(g: Geometry, before: seq<Word>, cells: seq<Word>, xstep: int, ystep: int, dx: int, dy: int, sx: int,
                    y: int)
    requires Directed(xstep, dx) && Directed(ystep, dy)
    requires sx == (if xstep < 0 then 0 else g.width - 1) && y == if ystep < 0 then g.height + ystep else ystep - 1
    requires ScrolledTo(g, before, cells, xstep, ystep, dx, dy, sx, y)
    ensures ScrolledAll(g, before, cells, xstep, ystep)
  {
    hide Pixel;
  }

  // ---------- When scrolling ends ----------

  /** The bounds of one loop: where it starts, where it stops, and in which direction. */
  function ScrollStart(size: nat, step: int): int { if step < 0 then 0 else size - 1 }

  function ScrollEnd(size: nat, step: int): int { if step < 0 then size + step else step - 1 }

  function ScrollDir(step: int): int { if step < 0 then 1 else -1 }

  predicate ScrollEnds(width: nat, height: nat, xstep: int, ystep: int) {
    Abs(ystep) <= height && (Abs(ystep) == height || Abs(xstep) <= width)
  }

  /** The two loop variables, and one test of the two loops: halted is y at its end, and x at
      its end starts the next row. */
  datatype Nest = Nest(x: int, y: int)

  predicate Halted(height: nat, ystep: int, n: Nest) { n.y == ScrollEnd(height, ystep) }

  function NestStep(width: nat, xstep: int, ystep: int, n: Nest): Nest {
    if n.x == ScrollEnd(width, xstep) then Nest(ScrollStart(width, xstep), n.y + ScrollDir(ystep))
    else Nest(n.x + ScrollDir(xstep), n.y)
  }

  function NestAfter(width: nat, xstep: int, ystep: int, n: Nest, k: nat): Nest
    decreases k
  {
    if k == 0 then n else NestAfter(width, xstep, ystep, NestStep(width, xstep, ystep, n), k - 1)
  }

  function NestStart(width: nat, height: nat, xstep: int, ystep: int): Nest {
    Nest(ScrollStart(width, xstep), ScrollStart(height, ystep))
  }

  predicate HaltsAt(width: nat, height: nat, xstep: int, ystep: int, k: nat) {
    Halted(height, ystep, NestAfter(width, xstep, ystep, NestStart(width, height, xstep, ystep), k))
  }

  /** The loop nest comes to its end exactly in the cases the method is called for; in all
      others it runs out of the buffer. */
  lemma ScrollEndsExactly(width: nat, height: nat, xstep: int, ystep: int)
    ensures (exists k: nat :: HaltsAt(width, height, xstep, ystep, k)) <==> ScrollEnds(width, height, xstep, ystep)
  {
    hide NestAfter;
    var n := NestStart(width, height, xstep, ystep);
    if ScrollEnds(width, height, xstep, ystep) {
      if Abs(ystep) == height {
        NestHere(width, xstep, ystep, n);
        assert HaltsAt(width, height, xstep, ystep, 0);
      } else {
        var k := NestReaches(width, height, xstep, ystep, n);
        assert HaltsAt(width, height, xstep, ystep, k);
      }
    } else {
      forall k: nat ensures !HaltsAt(width, height, xstep, ystep, k) {
        if Abs(ystep) > height {
          RowsRunAway(width, height, xstep, ystep, n, k);
        } else {
          ColumnsRunAway(width, height, xstep, ystep, n, k);
        }
      }
    }
  }

  lemma NestHere(width: nat, xstep: int, ystep: int, n: Nest)
    ensures NestAfter(width, xstep, ystep, n, 0) == n
  {
  }

  /** How far a variable has still to go. */
  function ToGo(size: nat, step: int, at: int): int {
    if step < 0 then ScrollEnd(size, step) - at else at - ScrollEnd(size, step)
  }

  lemma {:induction false} NestReaches(width: nat, height: nat, xstep: int, ystep: int, n: Nest) returns (k: nat)
    requires Abs(xstep) <= width && ToGo(height, ystep, n.y) >= 0 && ToGo(width, xstep, n.x) >= 0
    ensures Halted(height, ystep, NestAfter(width, xstep, ystep, n, k))
    decreases ToGo(height, ystep, n.y), ToGo(width, xstep, n.x)
  {
    if Halted(height, ystep, n) {
      k := 0;
    } else {
      k := NestReaches(width, height, xstep, ystep, NestStep(width, xstep, ystep, n));
      k := k + 1;
    }
  }

  lemma {:induction false} RowsRunAway(width: nat, height: nat, xstep: int, ystep: int, n: Nest, k: nat)
    requires ToGo(height, ystep, n.y) < 0
    ensures !Halted(height, ystep, NestAfter(width, xstep, ystep, n, k))
    decreases k
  {
    if k > 0 { RowsRunAway(width, height, xstep, ystep, NestStep(width, xstep, ystep, n), k - 1); }
  }

  lemma {:induction false} ColumnsRunAway(width: nat, height: nat, xstep: int, ystep: int, n: Nest, k: nat)
    requires ToGo(width, xstep, n.x) < 0 && !Halted(height, ystep, n)
    ensures !Halted(height, ystep, NestAfter(width, xstep, ystep, n, k))
    decreases k
  {
    if k > 0 { ColumnsRunAway(width, height, xstep, ystep, NestStep(width, xstep, ystep, n), k - 1); }
  }

  // ---------- Lines ----------

  ghost predicate PlottedUpTo(g: Geometry, before: seq<Word>, cells: seq<Word>, l: Line, n: nat, shade: Word) {
    RestKept(g, before, cells) && forall px, py :: Inside(g, px, py) ==>
      Pixel(g, cells, px, py) == if OnCanvas(g, px, py) && Among(l, n, px, py) then shade else Pixel(g, before, px, py)
  }

  ghost predicate LineDrawn(g: Geometry, before: seq<Word>, cells: seq<Word>, l: Line, shade: Word) {
    RestKept(g, before, cells) && forall px, py :: Inside(g, px, py) ==>
      Pixel(g, cells, px, py) == if OnCanvas(g, px, py) && OnLine(l, px, py) then shade else Pixel(g, before, px, py)
  }

  lemma AllPlotted(g: Geometry, before: seq<Word>, cells: seq<Word>, l: Line, shade: Word)
    requires PlottedUpTo(g, before, cells, l, Major(l) + 1, shade)
    ensures LineDrawn(g, before, cells, l, shade)
  {
    hide Pixel, Among;
  }

  lemma PlottedNone(g: Geometry, before: seq<Word>, l: Line, shade: Word)
    ensures PlottedUpTo(g, before, before, l, 0, shade)
  {
    hide Pixel;
    forall px, py ensures !Among(l, 0, px, py) { AmongNone(l, px, py); }
  }

  lemma PlotOneMore(g: Geometry, before: seq<Word>, cells: seq<Word>, l: Line, n: nat, col: Word)
    requires Fits(g, before) && PlottedUpTo(g, before, cells, l, n, Shade(g.format, col))
    ensures var (x, y) := Point(l, n);
            var after := if OnCanvas(g, x, y) then SetPixel(g, cells, x, y, col) else cells;
            PlottedUpTo(g, before, after, l, n + 1, Shade(g.format, col))
  {
    hide Pixel, SetPixel, Shade, Size, Point, Among, RestKept, Inside;
    var (x, y) := Point(l, n);
    KeptLength(g, before, cells);
    SetPixelKeepsRest(g, before, cells, x, y, col);
    if OnCanvas(g, x, y) { InsideCanvas(g, x, y); }
    var after := if OnCanvas(g, x, y) then SetPixel(g, cells, x, y, col) else cells;
    forall px, py | Inside(g, px, py)
      ensures Pixel(g, after, px, py) ==
        if OnCanvas(g, px, py) && Among(l, n + 1, px, py) then Shade(g.format, col) else Pixel(g, before, px, py)
    {
      AmongNext(l, n, px, py);
      if OnCanvas(g, x, y) { SetPixelChangesOne(g, cells, x, y, col, px, py); }
    }
  }

  lemma NothingPainted(g: Geometry, cells: seq<Word>, area: Area, shade: Word)
    requires forall x, y :: Inside(g, x, y) ==> !In(area, x, y)
    ensures Painted(g, cells, cells, area, shade)
  {
  }
}
