/** Packed pixels: where each format keeps a pixel, and what setting one does to the rest. */
module Pixels {
  import opened Arithmetic

  type Word = bv32

  datatype Format = MVLSB | RGB565 | GS4_HMSB | MHLSB | MHMSB

  datatype Geometry = Geometry(format: Format, width: nat, height: nat, stride: nat)

  predicate IsHorizontal(f: Format) { f == MHLSB || f == MHMSB }

  /** The stride covers the width and is whole in cells. */
  predicate WellFormed(g: Geometry) {
    && g.width <= g.stride
    && (g.format == GS4_HMSB ==> g.stride % 2 == 0)
    && (IsHorizontal(g.format) ==> g.stride % 8 == 0)
  }

  /** The cell column and the cell row of a pixel. */
  function Column(f: Format, x: nat): nat { if IsHorizontal(f) then x / 8 else if f == GS4_HMSB then x / 2 else x }

  function Row(f: Format, y: nat): nat { if f == MVLSB then y / 8 else y }

  function Pitch(g: Geometry): nat
  {
    if IsHorizontal(g.format) then g.stride / 8 else if g.format == GS4_HMSB then g.stride / 2 else g.stride
  }

  function Rows(g: Geometry): nat { if g.format == MVLSB then (g.height + 7) / 8 else g.height }

  function Size(g: Geometry): nat { Rows(g) * Pitch(g) }

  /** The rows there are bits for: in MVLSB the last cell row may go below the canvas. */
  function Depth(g: Geometry): nat { if g.format == MVLSB then 8 * Rows(g) else g.height }

  /** In the buffer, the padding on the right and below included. */
  predicate Inside(g: Geometry, x: int, y: int) { 0 <= x < g.stride && 0 <= y < Depth(g) }

  /** The index each format computes; a cell is a byte, for RGB565 a 16-bit word. */
  function Cell(g: Geometry, x: nat, y: nat): nat {
    match g.format
    case MVLSB => y / 8 * g.stride + x
    case RGB565 => x + y * g.stride
    case GS4_HMSB => (x + y * g.stride) / 2
    case _ => (x + y * g.stride) / 8
  }

  function Slot(g: Geometry, x: nat, y: nat): (s: nat)
    ensures s < 8
  {
    match g.format
    case MVLSB => y % 8
    case RGB565 => 0
    case GS4_HMSB => x % 2
    case MHLSB => 7 - x % 8
    case MHMSB => x % 8
  }

  // ---------- Cells ----------

  function Bit(s: nat): Word
    requires s < 8
  {
    match s
    case 0 => 1
    case 1 => 2
    case 2 => 4
    case 3 => 8
    case 4 => 16
    case 5 => 32
    case 6 => 64
    case 7 => 128
  }

  function Masked(cell: Word, mask: Word): Word { cell & mask }

  /** v in place of the bits of mask. */
  function Blend(cell: Word, mask: Word, v: Word): Word { (cell & !mask) | v }

  function Low16(w: Word): Word { w & 0xffff }

  function Low4(w: Word): Word { w & 0x0f }

  /** The right pixel of a pair is the low nibble. */
  function GetNibble(cell: Word, s: nat): Word { if s == 1 then cell & 0x0f else (cell >> 4) & 0x0f }

  function SetNibble(cell: Word, s: nat, col: Word): Word {
    if s == 1 then (col & 0x0f) | (cell & 0xf0) else ((col << 4) & 0xff) | (cell & 0x0f)
  }

  function GetBit(cell: Word, s: nat): Word
    requires s < 8
  {
    if Masked(cell, Bit(s)) != 0 then 1 else 0
  }

  function SetBit(cell: Word, s: nat, on: bool): Word
    requires s < 8
  {
    Blend(cell, Bit(s), if on then Bit(s) else 0)
  }

  function GetSlot(f: Format, cell: Word, s: nat): Word
    requires s < 8
  {
    if f == RGB565 then Low16(cell) else if f == GS4_HMSB then GetNibble(cell, s) else GetBit(cell, s)
  }

  function SetSlot(f: Format, cell: Word, s: nat, col: Word): Word
    requires s < 8
  {
    if f == RGB565 then Low16(col) else if f == GS4_HMSB then SetNibble(cell, s, col) else SetBit(cell, s, col != 0)
  }

  /** What a colour becomes when stored. */
  function Shade(f: Format, col: Word): Word {
    if f == RGB565 then Low16(col) else if f == GS4_HMSB then Low4(col) else if col != 0 then 1 else 0
  }

  lemma BitsDiffer(s: nat, t: nat)
    requires s < 8 && t < 8 && s != t
    ensures Masked(Bit(s), Bit(t)) == 0 && Bit(s) != 0
  {
  }

  lemma BlendLaws(cell: Word, a: Word, b: Word, v: Word)
    requires Masked(a, b) == 0 && (v == a || v == 0)
    ensures Masked(Blend(cell, a, v), b) == Masked(cell, b)
    ensures Masked(Blend(cell, a, v), a) == v
  {
  }

  lemma BitLaws(cell: Word, s: nat, t: nat, on: bool)
    requires s < 8 && t < 8
    ensures GetBit(SetBit(cell, s, on), s) == if on then 1 else 0
    ensures s != t ==> GetBit(SetBit(cell, s, on), t) == GetBit(cell, t)
  {
    hide Bit, Masked, Blend;
    var u := if s != t then t else if s == 0 then 1 else 0;
    BitsDiffer(s, u);
    BlendLaws(cell, Bit(s), Bit(u), if on then Bit(s) else 0);
  }

  lemma NibbleLaws(cell: Word, s: nat, t: nat, col: Word)
    requires s < 2 && t < 2
    ensures GetNibble(SetNibble(cell, s, col), s) == Low4(col)
    ensures s != t ==> GetNibble(SetNibble(cell, s, col), t) == GetNibble(cell, t)
  {
  }

  lemma StoredAgain(w: Word, s: nat)
    requires s < 8
    ensures Low16(Low16(w)) == Low16(w) && Low4(GetNibble(w, s)) == GetNibble(w, s)
  {
  }

  lemma SlotLaws(f: Format, cell: Word, s: nat, t: nat, col: Word)
    requires s < 8 && t < 8
    requires f == GS4_HMSB ==> s < 2 && t < 2
    ensures GetSlot(f, SetSlot(f, cell, s, col), s) == Shade(f, col)
    ensures s != t && f != RGB565 ==> GetSlot(f, SetSlot(f, cell, s, col), t) == GetSlot(f, cell, t)
  {
    hide Low16, Low4, GetNibble, SetNibble, GetBit, SetBit;
    StoredAgain(col, s);
    if f == GS4_HMSB { NibbleLaws(cell, s, t, col); }
    BitLaws(cell, s, t, col != 0);
  }

  /** Storing a colour that was read changes nothing in it. */
  lemma ShadeOfPixel(f: Format, cell: Word, s: nat)
    requires s < 8
    ensures Shade(f, GetSlot(f, cell, s)) == GetSlot(f, cell, s)
  {
    hide Low16, Low4, GetNibble;
    StoredAgain(cell, s);
  }

  // ---------- Addresses ----------

  lemma PackedIndex(k: nat, p: nat, x: nat, y: nat)
    requires k in {2, 8} && x < k * p
    ensures (x + y * (k * p)) / k == y * p + x / k && x / k < p
  {
    if k == 2 {
      assert y * (2 * p) == 2 * (y * p);
      ModUnique(x + y * (2 * p), 2, y * p + x / 2, x % 2);
    } else {
      assert y * (8 * p) == 8 * (y * p);
      ModUnique(x + y * (8 * p), 8, y * p + x / 8, x % 8);
    }
  }

  /** Row by row: the cell is the cell row times the pitch plus the cell column. */
  lemma CellIs(g: Geometry, x: nat, y: nat)
    requires WellFormed(g) && Inside(g, x, y)
    ensures Cell(g, x, y) == Row(g.format, y) * Pitch(g) + Column(g.format, x)
    ensures Column(g.format, x) < Pitch(g) && Row(g.format, y) < Rows(g)
  {
    match g.format
    case GS4_HMSB => PackedIndex(2, Pitch(g), x, y);
    case MHLSB => PackedIndex(8, Pitch(g), x, y);
    case MHMSB => PackedIndex(8, Pitch(g), x, y);
    case _ =>
  }

  lemma RowColumnUnique(p: nat, r: nat, c: nat, r': nat, c': nat)
    requires c < p && c' < p && r * p + c == r' * p + c'
    ensures r == r' && c == c'
  {
    ModUnique(r * p + c, p, r, c);
    ModUnique(r' * p + c', p, r', c');
  }

  lemma RowInSize(p: nat, rows: nat, r: nat, c: nat)
    requires r < rows && c < p
    ensures r * p + c < rows * p
  {
    MulMonotone(r + 1, rows, p);
    assert (r + 1) * p == r * p + p;
  }

  lemma MulMonotone(a: nat, b: nat, p: nat)
    requires a <= b
    ensures a * p <= b * p
  {
    assert b * p == a * p + (b - a) * p;
  }

  lemma CellInSize(g: Geometry, x: nat, y: nat)
    requires WellFormed(g) && Inside(g, x, y)
    ensures Cell(g, x, y) < Size(g)
  {
    hide Cell, Pitch, Rows, Row, Column;
    CellIs(g, x, y);
    RowInSize(Pitch(g), Rows(g), Row(g.format, y), Column(g.format, x));
  }

  /** Two pixels in one cell have different slots. */
  lemma PixelsApart(g: Geometry, x: nat, y: nat, x': nat, y': nat)
    requires WellFormed(g) && Inside(g, x, y) && Inside(g, x', y')
    requires Cell(g, x, y) == Cell(g, x', y') && (g.format == RGB565 || Slot(g, x, y) == Slot(g, x', y'))
    ensures x == x' && y == y'
  {
    hide Cell, Pitch, Rows, Row, Column, Slot;
    CellIs(g, x, y);
    CellIs(g, x', y');
    RowColumnUnique(Pitch(g), Row(g.format, y), Column(g.format, x), Row(g.format, y'), Column(g.format, x'));
    SlotTells(g, x, y, x', y');
  }

  lemma SlotTells(g: Geometry, x: nat, y: nat, x': nat, y': nat)
    requires Row(g.format, y) == Row(g.format, y') && Column(g.format, x) == Column(g.format, x')
    requires g.format == RGB565 || Slot(g, x, y) == Slot(g, x', y')
    ensures x == x' && y == y'
  {
  }

  // ---------- Pixels ----------

  ghost predicate Fits(g: Geometry, cells: seq<Word>) { WellFormed(g) && Size(g) <= |cells| }

  /** The value of a pixel, 0 outside. */
  function Pixel(g: Geometry, cells: seq<Word>, x: int, y: int): Word {
    if Inside(g, x, y) && Cell(g, x, y) < |cells| then GetSlot(g.format, cells[Cell(g, x, y)], Slot(g, x, y)) else 0
  }

  function SetPixel(g: Geometry, cells: seq<Word>, x: int, y: int, col: Word): (r: seq<Word>)
    ensures |r| == |cells|
  {
    if Inside(g, x, y) && Cell(g, x, y) < |cells| then
      cells[Cell(g, x, y) := SetSlot(g.format, cells[Cell(g, x, y)], Slot(g, x, y), col)]
    else cells
  }

  /** Setting a pixel gives it its shade and changes no other. */
  lemma SetPixelChangesOne(g: Geometry, cells: seq<Word>, x: int, y: int, col: Word, x': int, y': int)
    requires Fits(g, cells) && Inside(g, x, y) && Inside(g, x', y')
    ensures Pixel(g, SetPixel(g, cells, x, y, col), x', y') ==
            if x == x' && y == y' then Shade(g.format, col) else Pixel(g, cells, x', y')
  {
    hide Cell, Slot, GetSlot, SetSlot, Shade;
    CellInSize(g, x, y);
    CellInSize(g, x', y');
    SlotsFit(g, x, y);
    SlotsFit(g, x', y');
    if Cell(g, x, y) == Cell(g, x', y') {
      SlotLaws(g.format, cells[Cell(g, x, y)], Slot(g, x, y), Slot(g, x', y'), col);
      if x != x' || y != y' {
        assert g.format != RGB565 && Slot(g, x, y) != Slot(g, x', y') by {
          if g.format == RGB565 || Slot(g, x, y) == Slot(g, x', y') { PixelsApart(g, x, y, x', y'); }
        }
      }
    }
  }

  lemma SlotsFit(g: Geometry, x: nat, y: nat)
    ensures g.format == GS4_HMSB ==> Slot(g, x, y) < 2
  {
  }

  // ---------- The rest of the buffer ----------

  /** The bits of a word that the format's cells do not have. */
  function Unused(f: Format, cell: Word): Word { if f == RGB565 then cell & 0xffff_0000 else cell & 0xffff_ff00 }

  ghost predicate Clean(f: Format, cells: seq<Word>) { forall k :: 0 <= k < |cells| ==> Unused(f, cells[k]) == 0 }

  /** The cells past the geometry are the same, and no cell has got bits it does not have. */
  ghost predicate RestKept(g: Geometry, before: seq<Word>, cells: seq<Word>) {
    && |cells| == |before| && (Clean(g.format, before) ==> Clean(g.format, cells))
    && forall k :: Size(g) <= k < |cells| ==> cells[k] == before[k]
  }

  lemma SetSlotClean(f: Format, cell: Word, s: nat, col: Word)
    requires s < 8
    ensures Unused(f, cell) == 0 ==> Unused(f, SetSlot(f, cell, s, col)) == 0
  {
  }

  lemma SetPixelKeepsRest(g: Geometry, before: seq<Word>, cells: seq<Word>, x: int, y: int, col: Word)
    requires Fits(g, before) && RestKept(g, before, cells)
    ensures RestKept(g, before, SetPixel(g, cells, x, y, col))
  {
    hide Cell, Slot, SetSlot, Unused, Size;
    if Inside(g, x, y) {
      CellInSize(g, x, y);
      SetSlotClean(g.format, cells[Cell(g, x, y)], Slot(g, x, y), col);
    }
  }

  function SlotCount(f: Format): (n: nat)
    ensures n <= 8
  {
    if f == RGB565 then 1 else if f == GS4_HMSB then 2 else 8
  }

  lemma CellParts(g: Geometry, k: nat) returns (r: nat, c: nat)
    requires k < Size(g)
    ensures r < Rows(g) && c < Pitch(g) && k == r * Pitch(g) + c
  {
    hide Rows, Pitch, Size;
    SizeIs(g);
    var p := Pitch(g);
    assert p == 0 ==> Rows(g) * p == 0;
    r, c := k / p, k % p;
    assert k == p * (k / p) + k % p;
    if r >= Rows(g) { MulMonotone(Rows(g), r, p); }
  }

  /** The pixel of slot s in row r and column c of the cells. */
  lemma PixelIn(g: Geometry, r: nat, c: nat, s: nat) returns (x: nat, y: nat)
    requires WellFormed(g) && r < Rows(g) && c < Pitch(g) && s < SlotCount(g.format)
    ensures Inside(g, x, y) && Row(g.format, y) == r && Column(g.format, x) == c && Slot(g, x, y) == s
  {
    match g.format
    case MVLSB => x, y := c, 8 * r + s;
    case RGB565 => x, y := c, r;
    case GS4_HMSB => x, y := 2 * c + s, r;
    case MHLSB => x, y := 8 * c + (7 - s), r;
    case MHMSB => x, y := 8 * c + s, r;
  }

  /** A pixel for every slot of every cell of the geometry. */
  lemma PixelAt(g: Geometry, k: nat, s: nat) returns (x: nat, y: nat)
    requires WellFormed(g) && k < Size(g) && s < SlotCount(g.format)
    ensures Inside(g, x, y) && Cell(g, x, y) == k && Slot(g, x, y) == s
  {
    hide *;
    var r, c := CellParts(g, k);
    x, y := PixelIn(g, r, c, s);
    CellIs(g, x, y);
  }

  lemma SizeIs(g: Geometry)
    ensures Size(g) == Rows(g) * Pitch(g)
  {
  }

  /** A cell is its slots. */
  lemma SlotsDetermine(f: Format, a: Word, b: Word)
    requires Unused(f, a) == 0 && Unused(f, b) == 0
    requires forall s :: 0 <= s < SlotCount(f) ==> GetSlot(f, a, s) == GetSlot(f, b, s)
    ensures a == b
  {
    if f == RGB565 {
      assert GetSlot(f, a, 0) == GetSlot(f, b, 0);
    } else if f == GS4_HMSB {
      assert GetSlot(f, a, 0) == GetSlot(f, b, 0) && GetSlot(f, a, 1) == GetSlot(f, b, 1);
    } else {
      forall s | 0 <= s < 8 ensures GetBit(a, s) == GetBit(b, s) { assert GetSlot(f, a, s) == GetSlot(f, b, s); }
      BitsDetermine(a, b);
    }
  }

  lemma BitsDetermine(a: Word, b: Word)
    requires a & 0xffff_ff00 == 0 && b & 0xffff_ff00 == 0
    requires forall s :: 0 <= s < 8 ==> GetBit(a, s) == GetBit(b, s)
    ensures a == b
  {
    assert GetBit(a, 0) == GetBit(b, 0) && GetBit(a, 1) == GetBit(b, 1) && GetBit(a, 2) == GetBit(b, 2);
    assert GetBit(a, 3) == GetBit(b, 3) && GetBit(a, 4) == GetBit(b, 4) && GetBit(a, 5) == GetBit(b, 5);
    assert GetBit(a, 6) == GetBit(b, 6) && GetBit(a, 7) == GetBit(b, 7);
  }

  /** A buffer is its pixels and what lies past the geometry. */
  lemma PixelsDetermine(g: Geometry, a: seq<Word>, b: seq<Word>)
    requires Fits(g, a) && |a| == |b| && Clean(g.format, a) && Clean(g.format, b)
    requires forall k :: Size(g) <= k < |a| ==> a[k] == b[k]
    requires forall x, y :: Inside(g, x, y) ==> Pixel(g, a, x, y) == Pixel(g, b, x, y)
    ensures a == b
  {
    hide Size, Inside, Cell, Slot, Unused, GetSlot, SlotCount, WellFormed;
    forall k | 0 <= k < |a| ensures a[k] == b[k] {
      if k < Size(g) {
        forall s | 0 <= s < SlotCount(g.format) ensures GetSlot(g.format, a[k], s) == GetSlot(g.format, b[k], s) {
          var x, y := PixelAt(g, k, s);
          assert Pixel(g, a, x, y) == Pixel(g, b, x, y);
        }
        SlotsDetermine(g.format, a[k], b[k]);
      }
    }
  }

  lemma KeptLength(g: Geometry, before: seq<Word>, cells: seq<Word>)
    requires RestKept(g, before, cells)
    ensures |cells| == |before|
  {
  }

  // ---------- The layouts ----------

  /** Eight bits as a number, the first the least significant. */
  function Sum(b0: Word, b1: Word, b2: Word, b3: Word, b4: Word, b5: Word, b6: Word, b7: Word): Word {
    b0 + 2 * b1 + 4 * b2 + 8 * b3 + 16 * b4 + 32 * b5 + 64 * b6 + 128 * b7
  }

  lemma BitSums(cell: Word)
    requires cell & 0xffff_ff00 == 0
    ensures cell == Sum(GetBit(cell, 0), GetBit(cell, 1), GetBit(cell, 2), GetBit(cell, 3),
                        GetBit(cell, 4), GetBit(cell, 5), GetBit(cell, 6), GetBit(cell, 7))
  {
  }

  lemma CellSums(f: Format, cells: seq<Word>, k: nat)
    requires k < |cells| && Clean(f, cells) && f != RGB565
    ensures cells[k] == Sum(GetBit(cells[k], 0), GetBit(cells[k], 1), GetBit(cells[k], 2), GetBit(cells[k], 3),
                            GetBit(cells[k], 4), GetBit(cells[k], 5), GetBit(cells[k], 6), GetBit(cells[k], 7))
  {
    hide Sum, GetBit;
    BitSums(cells[k]);
  }

  lemma NibbleSums(cell: Word)
    requires cell & 0xffff_ff00 == 0
    ensures cell == 16 * GetNibble(cell, 0) + GetNibble(cell, 1)
  {
  }

  /** The pixel in slot s of the cell in row r and column c of the cells. */
  lemma PixelIsSlot(g: Geometry, cells: seq<Word>, r: nat, c: nat, s: nat, x: nat, y: nat)
    requires Fits(g, cells) && Inside(g, x, y)
    requires Row(g.format, y) == r && Column(g.format, x) == c && Slot(g, x, y) == s
    ensures r * Pitch(g) + c < |cells| && Pixel(g, cells, x, y) == GetSlot(g.format, cells[r * Pitch(g) + c], s)
  {
    hide Row, Column, Pitch, Rows, Slot, GetSlot, Inside;
    CellIs(g, x, y);
    CellInSize(g, x, y);
  }

  /** MHLSB: a byte is eight pixels of a row, the rightmost in the least significant bit. */
  lemma HlsbLayout(g: Geometry, cells: seq<Word>, c: nat, y: nat)
    requires Fits(g, cells) && Clean(g.format, cells) && g.format == MHLSB && c < g.stride / 8 && y < g.height
    ensures var k := y * (g.stride / 8) + c;
            && k < |cells|
            && cells[k] == Sum(Pixel(g, cells, 8 * c + 7, y), Pixel(g, cells, 8 * c + 6, y),
                               Pixel(g, cells, 8 * c + 5, y), Pixel(g, cells, 8 * c + 4, y),
                               Pixel(g, cells, 8 * c + 3, y), Pixel(g, cells, 8 * c + 2, y),
                               Pixel(g, cells, 8 * c + 1, y), Pixel(g, cells, 8 * c, y))
  {
    hide Pixel, GetBit, Sum, Size, Unused;
    PixelIsSlot(g, cells, y, c, 0, 8 * c + 7, y);
    PixelIsSlot(g, cells, y, c, 1, 8 * c + 6, y);
    PixelIsSlot(g, cells, y, c, 2, 8 * c + 5, y);
    PixelIsSlot(g, cells, y, c, 3, 8 * c + 4, y);
    PixelIsSlot(g, cells, y, c, 4, 8 * c + 3, y);
    PixelIsSlot(g, cells, y, c, 5, 8 * c + 2, y);
    PixelIsSlot(g, cells, y, c, 6, 8 * c + 1, y);
    PixelIsSlot(g, cells, y, c, 7, 8 * c, y);
    CellSums(g.format, cells, y * (g.stride / 8) + c);
  }

  /** MHMSB: the leftmost is in the least significant bit. */
  lemma HmsbLayout(g: Geometry, cells: seq<Word>, c: nat, y: nat)
    requires Fits(g, cells) && Clean(g.format, cells) && g.format == MHMSB && c < g.stride / 8 && y < g.height
    ensures var k := y * (g.stride / 8) + c;
            && k < |cells|
            && cells[k] == Sum(Pixel(g, cells, 8 * c, y), Pixel(g, cells, 8 * c + 1, y),
                               Pixel(g, cells, 8 * c + 2, y), Pixel(g, cells, 8 * c + 3, y),
                               Pixel(g, cells, 8 * c + 4, y), Pixel(g, cells, 8 * c + 5, y),
                               Pixel(g, cells, 8 * c + 6, y), Pixel(g, cells, 8 * c + 7, y))
  {
    hide Pixel, GetBit, Sum, Size, Unused;
    PixelIsSlot(g, cells, y, c, 0, 8 * c, y);
    PixelIsSlot(g, cells, y, c, 1, 8 * c + 1, y);
    PixelIsSlot(g, cells, y, c, 2, 8 * c + 2, y);
    PixelIsSlot(g, cells, y, c, 3, 8 * c + 3, y);
    PixelIsSlot(g, cells, y, c, 4, 8 * c + 4, y);
    PixelIsSlot(g, cells, y, c, 5, 8 * c + 5, y);
    PixelIsSlot(g, cells, y, c, 6, 8 * c + 6, y);
    PixelIsSlot(g, cells, y, c, 7, 8 * c + 7, y);
    CellSums(g.format, cells, y * (g.stride / 8) + c);
  }

  /** MVLSB: a byte is eight pixels of a column, the topmost in the least significant bit. */
  lemma VlsbLayout(g: Geometry, cells: seq<Word>, x: nat, r: nat)
    requires Fits(g, cells) && Clean(g.format, cells) && g.format == MVLSB && x < g.stride && r < (g.height + 7) / 8
    ensures var k := r * g.stride + x;
            && k < |cells|
            && cells[k] == Sum(Pixel(g, cells, x, 8 * r), Pixel(g, cells, x, 8 * r + 1),
                               Pixel(g, cells, x, 8 * r + 2), Pixel(g, cells, x, 8 * r + 3),
                               Pixel(g, cells, x, 8 * r + 4), Pixel(g, cells, x, 8 * r + 5),
                               Pixel(g, cells, x, 8 * r + 6), Pixel(g, cells, x, 8 * r + 7))
  {
    hide Pixel, GetBit, Sum, Size, Unused;
    PixelIsSlot(g, cells, r, x, 0, x, 8 * r);
    PixelIsSlot(g, cells, r, x, 1, x, 8 * r + 1);
    PixelIsSlot(g, cells, r, x, 2, x, 8 * r + 2);
    PixelIsSlot(g, cells, r, x, 3, x, 8 * r + 3);
    PixelIsSlot(g, cells, r, x, 4, x, 8 * r + 4);
    PixelIsSlot(g, cells, r, x, 5, x, 8 * r + 5);
    PixelIsSlot(g, cells, r, x, 6, x, 8 * r + 6);
    PixelIsSlot(g, cells, r, x, 7, x, 8 * r + 7);
    CellSums(g.format, cells, r * g.stride + x);
  }

  /** GS4_HMSB: a byte is two pixels, the left one in the high half. RGB565: a cell is a pixel. */
  lemma ColourLayouts(g: Geometry, cells: seq<Word>, c: nat, y: nat)
    requires Fits(g, cells) && Clean(g.format, cells) && y < g.height
    ensures g.format == GS4_HMSB && c < g.stride / 2 ==>
              var k := y * (g.stride / 2) + c;
              k < |cells| && cells[k] == 16 * Pixel(g, cells, 2 * c, y) + Pixel(g, cells, 2 * c + 1, y)
    ensures g.format == RGB565 && c < g.stride ==>
              y * g.stride + c < |cells| && cells[y * g.stride + c] == Pixel(g, cells, c, y)
  {
    hide Pixel, GetNibble, Size;
    if g.format == GS4_HMSB && c < g.stride / 2 {
      PixelIsSlot(g, cells, y, c, 0, 2 * c, y);
      PixelIsSlot(g, cells, y, c, 1, 2 * c + 1, y);
      NibbleSums(cells[y * (g.stride / 2) + c]);
    }
    if g.format == RGB565 && c < g.stride { PixelIsSlot(g, cells, y, c, 0, c, y); }
  }

  /** What is read where a colour was set: its low bits, or whether it is 0. */
  lemma SetThenGet(g: Geometry, cells: seq<Word>, x: int, y: int, col: Word)
    requires Fits(g, cells) && Inside(g, x, y)
    ensures Pixel(g, SetPixel(g, cells, x, y, col), x, y) ==
            match g.format
            case RGB565 => col % 0x10000
            case GS4_HMSB => col % 16
            case _ => if col == 0 then 0 else 1
  {
    hide Pixel, SetPixel, Size, Inside;
    SetPixelChangesOne(g, cells, x, y, col, x, y);
  }

  /** The first pixel of a row of eight. */
  lemma FirstPixelOfByte()
    ensures SetPixel(Geometry(MHLSB, 8, 1, 8), [0], 0, 0, 1) == [0x80]
    ensures SetPixel(Geometry(MHMSB, 8, 1, 8), [0], 0, 0, 1) == [0x01]
  {
    assert Blend(0, 128, 128) == 128 && Blend(0, 1, 1) == 1;
  }

  // ---------- Areas ----------

  /** A rectangle, one clipped to a canvas, r whole rows of one and c pixels of the next, or
      c whole columns and r pixels of the next. */
  datatype Area =
    | Rect(x: int, y: int, w: int, h: int)
    | Clipped(width: int, height: int, x: int, y: int, w: int, h: int)
    | RowWise(x: int, y: int, w: int, r: int, c: int)
    | ColumnWise(x: int, y: int, h: int, c: int, r: int)

  predicate In(a: Area, px: int, py: int) {
    match a
    case Rect(x, y, w, h) => x <= px < x + w && y <= py < y + h
    case Clipped(width, height, x, y, w, h) =>
      0 <= px < width && 0 <= py < height && x <= px < x + w && y <= py < y + h
    case RowWise(x, y, w, r, c) => (x <= px < x + w && y <= py < y + r) || (x <= px < x + c && py == y + r)
    case ColumnWise(x, y, h, c, r) => (x <= px < x + c && y <= py < y + h) || (px == x + c && y <= py < y + r)
  }

  /** The pixels of cells are those of old, except that those in area have the given shade, and
      the rest of the buffer is the same. */
  ghost predicate Painted(g: Geometry, before: seq<Word>, cells: seq<Word>, area: Area, shade: Word) {
    RestKept(g, before, cells) && forall x, y :: Inside(g, x, y) ==>
      Pixel(g, cells, x, y) == if In(area, x, y) then shade else Pixel(g, before, x, y)
  }

  /** more is area and one pixel. */
  ghost predicate AddsPixel(area: Area, more: Area, x: int, y: int) {
    forall px, py :: In(more, px, py) <==> In(area, px, py) || (px == x && py == y)
  }

  lemma PaintsOneMore(g: Geometry, before: seq<Word>, cells: seq<Word>, area: Area, x: int, y: int, col: Word,
                      more: Area)
    requires Fits(g, before) && Inside(g, x, y) && Painted(g, before, cells, area, Shade(g.format, col))
    requires AddsPixel(area, more, x, y)
    ensures Painted(g, before, SetPixel(g, cells, x, y, col), more, Shade(g.format, col))
  {
    hide Pixel, SetPixel, Shade, WellFormed, Size, RestKept, Inside;
    KeptLength(g, before, cells);
    SetPixelKeepsRest(g, before, cells, x, y, col);
    forall px, py | Inside(g, px, py)
      ensures Pixel(g, SetPixel(g, cells, x, y, col), px, py) ==
              if In(more, px, py) then Shade(g.format, col) else Pixel(g, before, px, py)
    {
      SetPixelChangesOne(g, cells, x, y, col, px, py);
    }
  }

  lemma PaintedSame(g: Geometry, before: seq<Word>, cells: seq<Word>, area: Area, shade: Word, same: Area)
    requires Painted(g, before, cells, area, shade)
    requires forall px, py :: Inside(g, px, py) ==> (In(same, px, py) <==> In(area, px, py))
    ensures Painted(g, before, cells, same, shade)
  {
  }

  /** What is painted where decides the whole buffer. */
  lemma PaintedDetermines(g: Geometry, before: seq<Word>, a: seq<Word>, b: seq<Word>, area: Area, shade: Word)
    requires Fits(g, before) && Clean(g.format, before)
    requires Painted(g, before, a, area, shade) && Painted(g, before, b, area, shade)
    ensures a == b
  {
    hide Size, Inside, Pixel, In, WellFormed;
    PixelsDetermine(g, a, b);
  }
}
