/**
tm13264cbcg_draw_bitmap of kernel/linux_bast/reciva/reciva_lcd_tm13264cbcg.c, and the memories of the panels that
it draws on.
 */
module Panel {
  import opened Bits
  import opened Bitmap
  import opened PadBitmap

  datatype Mode =
    | Tm13264cbcg0 | Tm13264cbcg1 | Tm13264cbcg2 | Tm13264cbcg3
    | AmaxKdc162a28b | Config1009
    | Config985
    | Config983

  const CTL_SET_PAGE := 0xb0
  const CTL_SET_COL_MSB := 0x10
  const CTL_SET_COL_LSB := 0x00
  const ROW_LOOKUP1: seq<nat> := [3, 2, 1, 0, 7, 6, 5, 4]

  const PAGES := 16
  const COLUMNS := 132

  // ---------------------------------------------------------------- page-addressed panels

  /** A controller whose memory is addressed by page and column; a byte holds eight pixels of one column. */
  class PagePanel {
    const ram: array2<byte>
    var page: nat
    var column: nat

    ghost predicate Valid()
      reads this
    {
      ram.Length0 == PAGES && ram.Length1 == COLUMNS && page < PAGES && column < 0x100
    }

    /** cycle with RS_CONTROL. */
    method Control(data: byte)
      requires Valid()
      modifies `page, `column
      ensures Valid()
      ensures page == if data / 16 == 0xb then data % 16 else old(page)
      ensures column == if data / 16 == 1 then 16 * (data % 16) + old(column) % 16
                        else if data / 16 == 0 then 16 * (old(column) / 16) + data % 16
                        else old(column)
    {
      if data / 16 == 0xb {
        page := data % 16;
      } else if data / 16 == 1 {
        column := 16 * (data % 16) + column % 16;
      } else if data / 16 == 0 {
        column := 16 * (column / 16) + data % 16;
      }
    }

    /** cycle with RS_DATA: the column advances, and bytes beyond the last column are lost. */
    method Data(data: byte)
      requires Valid()
      modifies `column, ram
      ensures Valid() && column == old(column) + if old(column) < COLUMNS then 1 else 0
      ensures forall p, c :: 0 <= p < PAGES && 0 <= c < COLUMNS ==>
                ram[p, c] == if p == page && c == old(column) then data else old(ram[p, c])
    {
      if column < COLUMNS {
        ram[page, column] := data;
        column := column + 1;
      }
    }
  }

  /** A command in the high nibble with its argument in the low one. */
  lemma Command(m: nat, l: nat)
    requires m < 16
    ensures Or(16 * m, And(l, 0x0f)) == 16 * m + l % 16
  {
    hide *;
    PowersOfTwo();
    LowMask(l, 4);
    LowMask(l % 16, 4);
    SplitNibbles(l);
    LowOfSmall(l % 16, 4);
    JoinNibbles(m, l % 16);
    JoinNibbles(m, 0);
    LowMask(0, 4);
    LowOfZero(4);
    OrZero(And(16 * m, 0xf0));
  }

  /** The page that row j of pages goes to. */
  function PageOf(mode: Mode, j: int, rowMax: nat): int {
    match mode
    case Config985 => if 0 <= j < |ROW_LOOKUP1| then ROW_LOOKUP1[j] else j
    case Config983 => rowMax - 1 - j
    case _ => j
  }

  /** Rows of pages go to distinct pages; the same table leads back. */
  lemma PageOfTwice(mode: Mode, j: int, rowMax: nat)
    ensures PageOf(mode, PageOf(mode, j, rowMax), rowMax) == j
  {
  }

  lemma PagesDistinct(mode: Mode, j: nat, rowMax: nat)
    requires j < rowMax <= PAGES
    ensures 0 <= PageOf(mode, j, rowMax) < PAGES
    ensures PageOf(mode, PageOf(mode, j, rowMax), rowMax) == j
    ensures forall k :: 0 <= k < rowMax && k != j ==>
              0 <= PageOf(mode, k, rowMax) < PAGES && PageOf(mode, k, rowMax) != PageOf(mode, j, rowMax)
  {
    PageOfTwice(mode, j, rowMax);
    forall k | 0 <= k < rowMax && k != j
      ensures 0 <= PageOf(mode, k, rowMax) < PAGES && PageOf(mode, k, rowMax) != PageOf(mode, j, rowMax)
    {
      PageOfTwice(mode, k, rowMax);
    }
  }

  predicate Flipped(mode: Mode) {
    mode == Config985 || mode == Config983
  }

  function Oriented(mode: Mode, b: byte): byte {
    if Flipped(mode) then Flip(b) else b
  }

  function LeftOf(mode: Mode, left: nat): nat {
    if mode == Config985 then 0 else left
  }

  /** The two commands that set the column. */
  method SetColumn(panel: PagePanel, left: nat)
    requires panel.Valid() && left < 0x100
    modifies panel`page, panel`column
    ensures panel.Valid() && panel.page == old(panel.page) && panel.column == left
  {
    hide Or, And, Shr;
    ColumnCommands(left);
    panel.Control(Or(CTL_SET_COL_MSB, And(Shr(left, 4), 0x0f)));
    panel.Control(Or(CTL_SET_COL_LSB, And(left, 0x0f)));
  }

  lemma ColumnCommands(left: nat)
    requires left < 0x100
    ensures Or(CTL_SET_COL_MSB, And(Shr(left, 4), 0x0f)) == 16 + left / 16 < 0x20
    ensures Or(CTL_SET_COL_LSB, And(left, 0x0f)) == left % 16
  {
    hide Or, And, Shr, Low;
    Command(1, Shr(left, 4));
    Command(0, left);
    SplitNibbles(left);
  }

  /** One page: the row and column commands, and the bytes of every column. */
  method DrawPage(mode: Mode, padded: array<byte>, width: nat, rowHeight: nat, r: nat, page: nat, left: nat,
                  panel: PagePanel)
    requires panel.Valid() && page < PAGES && left + width <= COLUMNS
    requires r < rowHeight && Start(width, rowHeight) <= padded.Length
    modifies panel, panel.ram
    ensures panel.Valid()
    ensures forall c: nat :: left <= c < left + width ==>
              panel.ram[page, c] == Oriented(mode, PageByte(padded[..], rowHeight, c - left, r))
    ensures forall p: nat, c: nat :: p < PAGES && c < COLUMNS && !(p == page && left <= c < left + width) ==>
              panel.ram[p, c] == old(panel.ram[p, c])
  {
    hide Start, Oriented, PageByte, Or, And;
    Command(0xb, page);
    panel.Control(Or(CTL_SET_PAGE, And(page, 0x0f)));
    SetColumn(panel, left);
    var k := 0;
    while k < width
      invariant k <= width && panel.Valid() && panel.page == page && panel.column == left + k
      invariant forall p, c :: 0 <= p < PAGES && 0 <= c < COLUMNS ==>
                  panel.ram[p, c] == if p == page && left <= c < left + k
                                     then Oriented(mode, PageByte(padded[..], rowHeight, c - left, r))
                                     else old(panel.ram[p, c])
    {
      ColumnFits(k, width, rowHeight);
      PageByteIs(padded[..], rowHeight, k, r);
      var data := padded[Start(k, rowHeight) + r];
      OrientedIs(mode, data);
      panel.Data(if Flipped(mode) then Flip(data) else data);
      k := k + 1;
    }
  }

  /** Page r of column k. */
  function PageByte(padded: seq<byte>, rowHeight: nat, k: nat, r: nat): byte {
    if r < |Column(padded, rowHeight, k)| then Column(padded, rowHeight, k)[r] else 0
  }

  lemma PageByteIs(padded: seq<byte>, rowHeight: nat, k: nat, r: nat)
    requires r < rowHeight && Start(k, rowHeight) + rowHeight <= |padded|
    ensures PageByte(padded, rowHeight, k, r) == padded[Start(k, rowHeight) + r]
  {
    hide Start;
  }

  lemma OrientedIs(mode: Mode, b: byte)
    ensures Oriented(mode, b) == if Flipped(mode) then Flip(b) else b
  {
  }

  /** Byte c of page p belongs to one of the rows of pages up to j. */
  predicate Touched(mode: Mode, width: nat, left: nat, rowMin: nat, rowMax: nat, j: nat, p: nat, c: nat) {
    rowMin <= PageOf(mode, p, rowMax) < j && left <= c < left + width
  }

  lemma TouchedGrows(mode: Mode, width: nat, left: nat, rowMin: nat, rowMax: nat, j: nat, end: nat)
    requires rowMin <= j < rowMax <= PAGES && PageOf(mode, j, rowMax) >= 0 && end == j + 1
    ensures forall p: nat, c: nat :: Touched(mode, width, left, rowMin, rowMax, j, p, c) ==>
              Touched(mode, width, left, rowMin, rowMax, end, p, c)
    ensures forall c: nat :: left <= c < left + width ==>
              Touched(mode, width, left, rowMin, rowMax, end, PageOf(mode, j, rowMax), c)
  {
    hide PageOf;
    PagesDistinct(mode, j, rowMax);
  }

  /** Row j of pages has been drawn. */
  ghost predicate RowDrawn(panel: PagePanel, mode: Mode, padded: seq<byte>, width: nat, left: nat,
                           rowMin: nat, rowMax: nat, j: nat)
    requires panel.Valid() && rowMin <= j < rowMax <= PAGES && left + width <= COLUMNS
    reads panel, panel.ram
  {
    PagesDistinct(mode, j, rowMax);
    forall c: nat :: left <= c < left + width ==>
      panel.ram[PageOf(mode, j, rowMax), c] == Oriented(mode, PageByte(padded, rowMax - rowMin, c - left, j - rowMin))
  }

  ghost predicate RowsDrawn(panel: PagePanel, mode: Mode, padded: seq<byte>, width: nat, left: nat,
                            rowMin: nat, rowMax: nat, end: nat)
    requires panel.Valid() && rowMin <= end <= rowMax <= PAGES && left + width <= COLUMNS
    reads panel, panel.ram
  {
    forall j: nat :: rowMin <= j < end ==> RowDrawn(panel, mode, padded, width, left, rowMin, rowMax, j)
  }

  /** The loop over the rows of pages. */
  method DrawPages(mode: Mode, padded: array<byte>, width: nat, left: nat, rowMin: nat, rowMax: nat, panel: PagePanel)
    requires panel.Valid() && rowMin <= rowMax <= PAGES && (mode == Config985 ==> rowMax <= |ROW_LOOKUP1|)
    requires LeftOf(mode, left) + width <= COLUMNS && Start(width, rowMax - rowMin) <= padded.Length
    modifies panel, panel.ram
    ensures panel.Valid()
    ensures RowsDrawn(panel, mode, padded[..], width, LeftOf(mode, left), rowMin, rowMax, rowMax)
    ensures forall p: nat, c: nat :: p < PAGES && c < COLUMNS ==>
              panel.ram[p, c] == old(panel.ram[p, c])
              || Touched(mode, width, LeftOf(mode, left), rowMin, rowMax, rowMax, p, c)
  {
    hide Start, Oriented, PageByte, PageOf, LeftOf, Column, Touched;
    var j := rowMin;
    while j < rowMax
      invariant rowMin <= j <= rowMax && panel.Valid()
      invariant RowsDrawn(panel, mode, padded[..], width, LeftOf(mode, left), rowMin, rowMax, j)
      invariant forall p: nat, c: nat :: p < PAGES && c < COLUMNS ==>
                  panel.ram[p, c] == old(panel.ram[p, c])
                  || Touched(mode, width, LeftOf(mode, left), rowMin, rowMax, j, p, c)
    {
      PagesDistinct(mode, j, rowMax);
      TouchedGrows(mode, width, LeftOf(mode, left), rowMin, rowMax, j, j + 1);
      label before:
      DrawPage(mode, padded, width, rowMax - rowMin, j - rowMin, PageOf(mode, j, rowMax), LeftOf(mode, left), panel);
      forall k: nat | rowMin <= k < j
        ensures RowDrawn(panel, mode, padded[..], width, LeftOf(mode, left), rowMin, rowMax, k)
      {
        assert old@before(RowDrawn(panel, mode, padded[..], width, LeftOf(mode, left), rowMin, rowMax, k));
      }
      j := j + 1;
    }
  }

  // ---------------------------------------------------------------- pixels

  /** The row of pixels that row y of the display appears in, and the column of its pixel x. */
  function PanelRow(mode: Mode, y: nat, rowMax: nat): int {
    match mode
    case Config985 => if y < 32 then 31 - y else if y < 64 then 95 - y else y
    case Config983 => 8 * rowMax - 1 - y
    case _ => y
  }

  function PanelColumn(mode: Mode, left: nat, x: nat): nat {
    match mode
    case Config985 => x
    case _ => left + x
  }

  /** The table of pages and the mirrored bytes put every row there. */
  lemma PanelRowIs(mode: Mode, y: nat, rowMax: nat)
    requires mode == Config985 ==> y < 64
    ensures PanelRow(mode, y, rowMax) == 8 * PageOf(mode, y / 8, rowMax) + if Flipped(mode) then 7 - y % 8 else y % 8
  {
    if mode == Config985 {
      var j := y / 8;
      assert PageOf(mode, j, rowMax) == if j < 4 then 3 - j else 11 - j;
    }
  }

  lemma PanelColumnIs(mode: Mode, left: nat, x: nat)
    ensures PanelColumn(mode, left, x) == LeftOf(mode, left) + x
  {
  }

  ghost predicate PanelPixel(panel: PagePanel, x: nat, row: int)
    requires panel.Valid()
    reads panel, panel.ram
  {
    0 <= row < 8 * PAGES && x < COLUMNS && Bit(panel.ram[row / 8, x], row % 8)
  }

  /** The panel pixel in which pixel (x, y) of the display appears. */
  ghost predicate DisplayPixel(panel: PagePanel, mode: Mode, left: nat, rowMax: nat, x: nat, y: nat)
    requires panel.Valid()
    reads panel, panel.ram
  {
    PanelPixel(panel, PanelColumn(mode, left, x), PanelRow(mode, y, rowMax))
  }

  /** Every mode permutes the rows of its display: the same map leads back. */
  lemma PanelRowTwice(mode: Mode, y: nat, rowMax: nat)
    requires y < 8 * rowMax && (mode == Config985 ==> rowMax == 8)
    ensures 0 <= PanelRow(mode, y, rowMax) < 8 * rowMax
    ensures PanelRow(mode, PanelRow(mode, y, rowMax), rowMax) == y
  {
  }

  /** Byte c of page p is one of those that rows 8 * rowMin to 8 * rowMax - 1 of the display go to. */
  predicate InRows(mode: Mode, width: nat, left: nat, rowMin: nat, rowMax: nat, p: nat, c: nat) {
    && 8 * rowMin <= PanelRow(mode, 8 * p, rowMax) < 8 * rowMax
    && PanelColumn(mode, left, 0) <= c < PanelColumn(mode, left, width)
  }

  lemma InRowsIs(mode: Mode, width: nat, left: nat, rowMin: nat, rowMax: nat, p: nat, c: nat)
    requires mode == Config985 ==> rowMax <= 8
    ensures InRows(mode, width, left, rowMin, rowMax, p, c)
       <==> Touched(mode, width, LeftOf(mode, left), rowMin, rowMax, rowMax, p, c)
  {
    if mode != Config985 || p < 8 { PanelRowIs(mode, 8 * p, rowMax); }
    PanelColumnIs(mode, left, 0);
    PanelColumnIs(mode, left, width);
  }

  /**
   Rows 8 * rowMin to 8 * rowMax - 1 of the panel show the picture from row `first` on, and are blank above and
   below it.
   */
  ghost predicate PanelShows(panel: PagePanel, mode: Mode, data: seq<byte>, left: nat, width: nat, height: nat,
                             first: nat, rowMin: nat, rowMax: nat)
    requires panel.Valid()
    reads panel, panel.ram
  {
    forall x: nat, y: nat :: x < width && 8 * rowMin <= y < 8 * rowMax ==>
      DisplayPixel(panel, mode, left, rowMax, x, y)
      == (first <= y < first + height && Pixel(data, height, x, y - first))
  }

  lemma OrientedBit(mode: Mode, b: byte, i: nat)
    requires i < 8
    ensures Bit(Oriented(mode, b), if Flipped(mode) then 7 - i else i) == Bit(b, i)
  {
    hide Bit, Flip;
    FlipBits(b, 7 - i);
  }

  /** The panel shows the padded bitmap pixel by pixel. */
  lemma RowsShow(panel: PagePanel, mode: Mode, padded: seq<byte>, data: seq<byte>,
                 left: nat, width: nat, height: nat, moved: nat, rowMin: nat, rowMax: nat)
    requires panel.Valid() && rowMin <= rowMax <= PAGES && LeftOf(mode, left) + width <= COLUMNS
    requires mode == Config985 ==> rowMax <= 8
    requires RowsDrawn(panel, mode, padded, width, LeftOf(mode, left), rowMin, rowMax, rowMax)
    requires IsPadded(padded, data, width, height, moved, rowMax - rowMin)
    ensures forall x: nat, y: nat :: x < width && 8 * rowMin <= y < 8 * rowMax ==>
              DisplayPixel(panel, mode, left, rowMax, x, y) == Pixel(padded, 8 * (rowMax - rowMin), x, y - 8 * rowMin)
  {
    hide Bit, Oriented, PageOf, IsColumnAt, Column, Pixel, DisplayPixel, LeftOf, PagePanel.Valid, RowsDrawn;
    forall x: nat, y: nat | x < width && 8 * rowMin <= y < 8 * rowMax
      ensures DisplayPixel(panel, mode, left, rowMax, x, y) == Pixel(padded, 8 * (rowMax - rowMin), x, y - 8 * rowMin)
    {
      var r, column := y / 8 - rowMin, Column(padded, rowMax - rowMin, x);
      assert |column| == rowMax - rowMin && IsColumnAt(column, data, x, height, moved);
      ColumnLength(padded, rowMax - rowMin, x);
      PanelPixelIs(panel, mode, padded, left, width, rowMin, rowMax, x, y);
      PixelOfPage(padded, rowMax - rowMin, x, y - 8 * rowMin);
      assert (y - 8 * rowMin) / 8 == r && (y - 8 * rowMin) % 8 == y % 8;
    }
  }

  /** The panel shows a picture at a row exactly when the padded bitmap does. */
  lemma PanelShowsPadded(panel: PagePanel, mode: Mode, padded: seq<byte>, data: seq<byte>,
                         left: nat, width: nat, height: nat, shift: nat, rowMin: nat, rowMax: nat)
    requires panel.Valid() && rowMin <= rowMax
    requires forall x: nat, y: nat :: x < width && 8 * rowMin <= y < 8 * rowMax ==>
               DisplayPixel(panel, mode, left, rowMax, x, y) == Pixel(padded, 8 * (rowMax - rowMin), x, y - 8 * rowMin)
    ensures PanelShows(panel, mode, data, left, width, height, 8 * rowMin + shift, rowMin, rowMax)
       <==> Shows(padded, data, width, height, shift, rowMax - rowMin)
  {
    hide DisplayPixel, Pixel, PagePanel.Valid;
    var pages, first := rowMax - rowMin, 8 * rowMin + shift;
    if PanelShows(panel, mode, data, left, width, height, first, rowMin, rowMax) {
      forall x: nat, y: nat | x < width && y < 8 * pages
        ensures Pixel(padded, 8 * pages, x, y) == (shift <= y < shift + height && Pixel(data, height, x, y - shift))
      {
        var z := 8 * rowMin + y;
        assert DisplayPixel(panel, mode, left, rowMax, x, z) == Pixel(padded, 8 * pages, x, z - 8 * rowMin);
        assert z - first == y - shift;
      }
    }
    if Shows(padded, data, width, height, shift, pages) {
      forall x: nat, y: nat | x < width && 8 * rowMin <= y < 8 * rowMax
        ensures DisplayPixel(panel, mode, left, rowMax, x, y)
             == (first <= y < first + height && Pixel(data, height, x, y - first))
      {
        ShownAt(padded, data, width, height, shift, pages, x, y - 8 * rowMin);
        assert y - 8 * rowMin - shift == y - first;
      }
    }
  }

  lemma PanelPixelIs(panel: PagePanel, mode: Mode, padded: seq<byte>,
                     left: nat, width: nat, rowMin: nat, rowMax: nat, x: nat, y: nat)
    requires panel.Valid() && rowMin <= rowMax <= PAGES && LeftOf(mode, left) + width <= COLUMNS
    requires mode == Config985 ==> rowMax <= 8
    requires RowsDrawn(panel, mode, padded, width, LeftOf(mode, left), rowMin, rowMax, rowMax)
    requires x < width && 8 * rowMin <= y < 8 * rowMax
    ensures DisplayPixel(panel, mode, left, rowMax, x, y)
         == Bit(PageByte(padded, rowMax - rowMin, x, y / 8 - rowMin), y % 8)
  {
    hide Bit, Oriented, PageOf, PageByte, LeftOf, PanelRow, PanelColumn;
    var j := y / 8;
    assert RowDrawn(panel, mode, padded, width, LeftOf(mode, left), rowMin, rowMax, j);
    PagesDistinct(mode, j, rowMax);
    var p, bit := PageOf(mode, j, rowMax), if Flipped(mode) then 7 - y % 8 else y % 8;
    assert panel.ram[p, LeftOf(mode, left) + x] == Oriented(mode, PageByte(padded, rowMax - rowMin, x, j - rowMin));
    assert (8 * p + bit) / 8 == p && (8 * p + bit) % 8 == bit;
    OrientedBit(mode, PageByte(padded, rowMax - rowMin, x, j - rowMin), y % 8);
    PanelRowIs(mode, y, rowMax);
    PanelColumnIs(mode, left, x);
  }

  lemma RowsOfPages(top: nat, height: nat)
    ensures (top + height + 7) / 8 - top / 8 == Pages(height, top % 8)
  {
  }

  /**
   tm13264cbcg_draw_bitmap in the page-addressed modes. The rows are permuted around the bitmap's own last row of
   pages, so a bitmap that does not end at the end of the display is not where CONFIG983 would have it as part of a
   whole display. The picture lies at its own top row if and only if pad_bitmap does not displace it.
   */
  method DrawBitmap(mode: Mode, info: BitmapData, panel: PagePanel)
    requires Holds(info.data[..], Start(info.width, info.height)) && panel.Valid()
    requires PanelColumn(mode, info.left, info.width) <= COLUMNS
    requires (info.top + info.height + 7) / 8 <= if mode == Config985 then 8 else PAGES
    modifies panel, panel.ram
    ensures panel.Valid()
    ensures PanelShows(panel, mode, info.data[..], info.left, info.width, info.height,
                       info.top - info.top % 8 + Displacement(info.top, info.height),
                       info.top / 8, (info.top + info.height + 7) / 8)
    ensures PanelShows(panel, mode, info.data[..], info.left, info.width, info.height, info.top,
                       info.top / 8, (info.top + info.height + 7) / 8)
       <==> info.height + info.top % 8 >= 8 || info.top % 8 == 4 || Blank(info.data[..], info.width, info.height)
    ensures forall p: nat, c: nat :: p < PAGES && c < COLUMNS ==>
              panel.ram[p, c] == old(panel.ram[p, c])
              || InRows(mode, info.width, info.left, info.top / 8, (info.top + info.height + 7) / 8, p, c)
  {
    hide Start, IsPadded, PageOf, LeftOf, Displacement, Oriented, PageByte, PanelShows, RowsDrawn, Touched, Pages;
    hide Shows, Pixel, DisplayPixel, Blank, PanelColumn, InRows;
    PanelColumnIs(mode, info.left, info.width);
    ghost var data := info.data[..];
    var rowMin, rowMax := info.top / 8, (info.top + info.height + 7) / 8;
    RowsOfPages(info.top, info.height);
    var padded, past := Pad(info);
    ghost var bits, moved := padded.data[..], Displacement(info.top, info.height);
    PaddedLength(bits, data, info.width, info.height, moved, rowMax - rowMin);
    DrawPages(mode, padded.data, info.width, padded.left, rowMin, rowMax, panel);
    forall p: nat, c: nat
      ensures InRows(mode, info.width, info.left, rowMin, rowMax, p, c)
         <==> Touched(mode, info.width, LeftOf(mode, info.left), rowMin, rowMax, rowMax, p, c)
    {
      InRowsIs(mode, info.width, info.left, rowMin, rowMax, p, c);
    }
    RowsShow(panel, mode, bits, data, info.left, info.width, info.height, moved, rowMin, rowMax);
    PaddedPicture(bits, data, info.width, info.height, moved, rowMax - rowMin);
    PictureKept(bits, data, info.top, info.width, info.height);
    PanelShowsPadded(panel, mode, bits, data, info.left, info.width, info.height, moved, rowMin, rowMax);
    PanelShowsPadded(panel, mode, bits, data, info.left, info.width, info.height, info.top % 8, rowMin, rowMax);
    assert 8 * rowMin + info.top % 8 == info.top && 8 * rowMin + moved == info.top - info.top % 8 + moved;
  }

  lemma {:induction false} PaddedLength(
      padded: seq<byte>, data: seq<byte>, width: nat, height: nat, moved: nat, pages: nat)
    requires IsPadded(padded, data, width, height, moved, pages)
    ensures Start(width, pages) <= |padded|
  {
    hide IsColumnAt;
    if width > 0 {
      assert |Column(padded, pages, width - 1)| == pages;
      NextStart(width - 1, pages);
    }
  }
}
