/**
The SSD0323 mode of tm13264cbcg_draw_bitmap in kernel/linux_bast/reciva/reciva_lcd_tm13264cbcg.c: a panel addressed
by row, two grey pixels to a byte.
 */
module GreyPanel {
  import opened Bits
  import opened PadBitmap
  import opened Panel

  const GREY_ROWS := 80
  const GREY_COLUMNS := 64

  /** The SSD0323: a window of rows and columns, and a position in it that data writes advance. */
  class Ssd0323 {
    const ram: array2<byte>
    /** The bytes of a command that is not complete. */
    var command: seq<byte>
    var columnStart: nat
    var columnEnd: nat
    var rowStart: nat
    var rowEnd: nat
    var column: nat
    var row: nat

    ghost predicate Valid()
      reads this
    {
      ram.Length0 == GREY_ROWS && ram.Length1 == GREY_COLUMNS
    }

    /** cycle with RS_CONTROL: 0x15 and 0x75 take two more bytes, the start and the end of a window. */
    method Control(data: byte)
      requires Valid()
      modifies `command, `columnStart, `columnEnd, `column, `rowStart, `rowEnd, `row
      ensures Valid()
      ensures old(|command|) < 2 ==>
                && command == old(command) + [data]
                && columnStart == old(columnStart) && columnEnd == old(columnEnd) && column == old(column)
                && rowStart == old(rowStart) && rowEnd == old(rowEnd) && row == old(row)
      ensures old(|command|) == 2 && old(command[0]) == 0x15 ==>
                && command == [] && column == columnStart == old(command[1]) as nat && columnEnd == data
                && rowStart == old(rowStart) && rowEnd == old(rowEnd) && row == old(row)
      ensures old(|command|) == 2 && old(command[0]) == 0x75 ==>
                && command == [] && row == rowStart == old(command[1]) as nat && rowEnd == data
                && columnStart == old(columnStart) && columnEnd == old(columnEnd) && column == old(column)
    {
      command := command + [data];
      if |command| >= 3 {
        if command[0] == 0x15 {
          columnStart, columnEnd := command[1], command[2];
          column := columnStart;
        } else if command[0] == 0x75 {
          rowStart, rowEnd := command[1], command[2];
          row := rowStart;
        }
        command := [];
      }
    }

    /** cycle with RS_DATA. */
    method Data(data: byte)
      requires Valid()
      modifies `column, `row, ram
      ensures Valid()
      ensures forall r, c :: 0 <= r < GREY_ROWS && 0 <= c < GREY_COLUMNS ==>
                ram[r, c] == if r == old(row) && c == old(column) then data else old(ram[r, c])
      ensures old(column) < columnEnd ==> column == old(column) + 1 && row == old(row)
      ensures old(column) >= columnEnd ==>
                column == columnStart && row == if old(row) >= rowEnd then rowStart else old(row) + 1
    {
      if row < GREY_ROWS && column < GREY_COLUMNS {
        ram[row, column] := data;
      }
      if column < columnEnd {
        column := column + 1;
      } else {
        column := columnStart;
        row := if row < rowEnd then row + 1 else rowStart;
      }
    }
  }

  /** `data |= 0xf0` and `data |= 0x0f`. */
  lemma GreyNibbles()
    ensures Or(0, 0xf0) == 0xf0 && Or(0, 0x0f) == 0x0f && Or(0xf0, 0x0f) == 0xff
  {
    hide *;
    OrZero(0xf0);
    OrZero(0x0f);
    JoinedNibbles();
  }

  lemma JoinedNibbles()
    ensures Or(0xf0, 0x0f) == 0xff
  {
    hide *;
    Command(15, 15);
    LowMask(15, 4);
    PowersOfTwo();
    LowOfSmall(15, 4);
  }

  /** The column and row commands of one row of pixels. */
  method SetWindow(panel: Ssd0323, row: nat)
    requires panel.Valid() && panel.command == [] && row < 0x40
    modifies panel
    ensures panel.Valid() && panel.command == []
    ensures panel.column == panel.columnStart == 0 && panel.columnEnd == 0x3f
    ensures panel.row == panel.rowStart == row && panel.rowEnd == 0x3f
  {
    panel.Control(0x15);
    panel.Control(0x00);
    panel.Control(0x3f);
    panel.Control(0x75);
    panel.Control(row);
    panel.Control(0x3f);
  }

  /** The bit of the padded bitmap that the driver looks at. */
  predicate PaddedBit(padded: seq<byte>, rowHeight: nat, k: nat, i: nat) {
    Bit(PageByte(padded, rowHeight, k, i / 8), i % 8)
  }

  /** Page i / 8 of column k; past the last column it is whatever memory holds. */
  method PixelByte(padded: array<byte>, width: nat, rowHeight: nat, k: nat, i: nat) returns (temp: byte)
    requires i / 8 < rowHeight && Start(width, rowHeight) <= padded.Length
    ensures k < width ==> temp == PageByte(padded[..], rowHeight, k, i / 8)
  {
    hide Start, PageByte;
    if k < width {
      ColumnFits(k, width, rowHeight);
      PageByteIs(padded[..], rowHeight, k, i / 8);
      temp := padded[Start(k, rowHeight) + i / 8];
    } else {
      temp := *;
    }
  }

  /** The byte for columns k and k + 1 of row i. */
  method TwoPixels(padded: array<byte>, width: nat, rowHeight: nat, k: nat, i: nat) returns (data: byte)
    requires k < width && i / 8 < rowHeight && Start(width, rowHeight) <= padded.Length
    ensures IsGrey(data) && LeftHalf(data) == PaddedBit(padded[..], rowHeight, k, i)
    ensures k + 1 < width ==> RightHalf(data) == PaddedBit(padded[..], rowHeight, k + 1, i)
  {
    hide Start, Or, And, Bit, Pow2, PageByte;
    var temp := PixelByte(padded, width, rowHeight, k, i);
    var temp2 := PixelByte(padded, width, rowHeight, k + 1, i);
    TestBit(temp, i % 8);
    TestBit(temp2, i % 8);
    GreyNibbles();
    data := 0;
    if And(temp, Pow2(i % 8)) != 0 {
      data := Or(data, 0xf0);
    }
    if And(temp2, Pow2(i % 8)) != 0 {
      data := Or(data, 0x0f);
    }
  }

  /** Both nibbles of a grey byte are 0 or 15. */
  predicate IsGrey(b: byte) {
    b in {0, 0x0f, 0xf0, 0xff}
  }

  predicate LeftHalf(b: byte) {
    b / 16 == 15
  }

  predicate RightHalf(b: byte) {
    b % 16 == 15
  }

  /** The byte in column c of the panel shows columns 2 c and 2 c + 1 of row i. */
  predicate ShowsTwo(b: byte, padded: seq<byte>, width: nat, rowHeight: nat, c: nat, i: nat) {
    && IsGrey(b) && LeftHalf(b) == PaddedBit(padded, rowHeight, 2 * c, i)
    && (2 * c + 1 < width ==> RightHalf(b) == PaddedBit(padded, rowHeight, 2 * c + 1, i))
  }

  /** The bytes of a row of that many columns. */
  function RowBytes(width: nat): nat {
    (width + 1) / 2
  }

  /** The first n bytes of row r of the panel show row i of the padded bitmap. */
  ghost predicate RowPart(panel: Ssd0323, padded: seq<byte>, width: nat, rowHeight: nat, r: nat, i: nat, n: nat)
    requires panel.Valid() && r < GREY_ROWS && n <= GREY_COLUMNS
    reads panel, panel.ram
  {
    forall c: nat :: c < n ==> ShowsTwo(panel.ram[r, c], padded, width, rowHeight, c, i)
  }

  /** One row of pixels. */
  method DrawRow(padded: array<byte>, width: nat, height: nat, rowHeight: nat, i: nat, panel: Ssd0323)
    requires panel.Valid() && panel.command == [] && width <= 128 && i < height <= 64
    requires i / 8 < rowHeight && Start(width, rowHeight) <= padded.Length
    modifies panel, panel.ram
    ensures panel.Valid() && panel.command == []
    ensures RowPart(panel, padded[..], width, rowHeight, height - i - 1, i, RowBytes(width))
    ensures forall r: nat, c: nat ::
              r < GREY_ROWS && c < GREY_COLUMNS && !(r == height - i - 1 && c < RowBytes(width)) ==>
              panel.ram[r, c] == old(panel.ram[r, c])
  {
    hide Start, PaddedBit, LeftHalf, RightHalf, IsGrey;
    SetWindow(panel, height - i - 1);
    var k := 0;
    while k < width
      invariant k % 2 == 0 && k / 2 <= RowBytes(width)
      invariant panel.Valid() && panel.command == [] && panel.columnEnd == 0x3f
      invariant k < 128 ==> panel.column == k / 2 && panel.row == height - i - 1
      invariant RowPart(panel, padded[..], width, rowHeight, height - i - 1, i, k / 2)
      invariant forall r: nat, c: nat :: r < GREY_ROWS && c < GREY_COLUMNS && !(r == height - i - 1 && c < k / 2) ==>
                  panel.ram[r, c] == old(panel.ram[r, c])
    {
      var data := TwoPixels(padded, width, rowHeight, k, i);
      assert k == 2 * (k / 2);
      panel.Data(data);
      k := k + 2;
    }
  }

  /** Row r of the panel holds row height - 1 - r of the padded bitmap. */
  ghost predicate RowIs(panel: Ssd0323, padded: seq<byte>, width: nat, height: nat, rowHeight: nat, r: nat)
    requires panel.Valid() && r < height && r < GREY_ROWS && width <= 128
    reads panel, panel.ram
  {
    RowPart(panel, padded, width, rowHeight, r, height - 1 - r, RowBytes(width))
  }

  /** The loop over the rows of pixels. */
  method DrawRows(padded: array<byte>, width: nat, height: nat, rowHeight: nat, panel: Ssd0323)
    requires panel.Valid() && panel.command == [] && width <= 128 && height <= 64
    requires height <= 8 * rowHeight && Start(width, rowHeight) <= padded.Length
    modifies panel, panel.ram
    ensures panel.Valid() && panel.command == []
    ensures RowsAre(panel, padded[..], width, height, rowHeight)
    ensures forall r: nat, c: nat :: r < GREY_ROWS && c < GREY_COLUMNS && (r >= height || c >= RowBytes(width)) ==>
              panel.ram[r, c] == old(panel.ram[r, c])
  {
    hide Start, ShowsTwo;
    ghost var bits := padded[..];
    var i := 0;
    while i < height
      invariant i <= height && panel.Valid() && panel.command == [] && padded[..] == bits
      invariant forall r: nat :: height - i <= r < height ==> RowIs(panel, bits, width, height, rowHeight, r)
      invariant forall r: nat, c: nat :: r < GREY_ROWS && c < GREY_COLUMNS && (r >= height || c >= RowBytes(width)) ==>
                  panel.ram[r, c] == old(panel.ram[r, c])
    {
      label before:
      DrawRow(padded, width, height, rowHeight, i, panel);
      assert RowIs(panel, bits, width, height, rowHeight, height - 1 - i);
      forall r: nat | height - i <= r < height
        ensures RowIs(panel, bits, width, height, rowHeight, r)
      {
        assert old@before(RowIs(panel, bits, width, height, rowHeight, r));
        assert forall c: nat :: c < RowBytes(width) ==> panel.ram[r, c] == old@before(panel.ram[r, c]);
      }
      i := i + 1;
    }
  }

  ghost predicate RowsAre(panel: Ssd0323, padded: seq<byte>, width: nat, height: nat, rowHeight: nat)
    requires panel.Valid() && height <= 64 && width <= 128
    reads panel, panel.ram
  {
    forall r: nat :: r < height ==> RowIs(panel, padded, width, height, rowHeight, r)
  }

  /** The grey level of a pixel: the even columns are in the high nibbles. */
  ghost function GreyPixel(panel: Ssd0323, x: nat, row: nat): nat
    requires panel.Valid() && x < 2 * GREY_COLUMNS && row < GREY_ROWS
    reads panel, panel.ram
  {
    if x % 2 == 0 then panel.ram[row, x / 2] / 16 else panel.ram[row, x / 2] % 16
  }

  /** The grey level of the panel pixel in which pixel (x, y) of a display of that height appears: bottom row first. */
  ghost function DisplayGrey(panel: Ssd0323, height: nat, x: nat, y: nat): nat
    requires panel.Valid() && x < 2 * GREY_COLUMNS && y < height <= 64
    reads panel, panel.ram
  {
    GreyPixel(panel, x, height - 1 - y)
  }

  /** Row y of the bitmap appears in row height - 1 - y of the panel, `moved` rows late. */
  ghost predicate GreyShows(panel: Ssd0323, data: seq<byte>, width: nat, height: nat, moved: nat)
    requires panel.Valid() && width <= 128 && height <= 64
    reads panel, panel.ram
  {
    forall x: nat, y: nat :: x < width && y < height ==>
      DisplayGrey(panel, height, x, y) == if moved <= y && Pixel(data, height, x, y - moved) then 15 else 0
  }

  lemma RowOf(panel: Ssd0323, padded: seq<byte>, width: nat, height: nat, rowHeight: nat, r: nat)
    requires panel.Valid() && height <= 64 && width <= 128 && r < height
    requires RowsAre(panel, padded, width, height, rowHeight)
    ensures RowIs(panel, padded, width, height, rowHeight, r)
  {
  }

  lemma RowsShow(panel: Ssd0323, padded: seq<byte>, data: seq<byte>, width: nat, height: nat, moved: nat, pages: nat)
    requires panel.Valid() && width <= 128 && height <= 64 && height <= 8 * pages
    requires IsPadded(padded, data, width, height, moved, pages)
    requires RowsAre(panel, padded, width, height, pages)
    ensures GreyShows(panel, data, width, height, moved)
  {
    hide Pixel, DisplayGrey, RowsAre, IsPadded;
    forall x: nat, y: nat | x < width && y < height
      ensures DisplayGrey(panel, height, x, y) == if moved <= y && Pixel(data, height, x, y - moved) then 15 else 0
    {
      RowOf(panel, padded, width, height, pages, height - 1 - y);
      GreyOfRow(panel, padded, width, height, pages, x, y);
      PaddedBitIs(padded, data, width, height, moved, pages, x, y);
    }
  }

  lemma GreyOfRow(panel: Ssd0323, padded: seq<byte>, width: nat, height: nat, pages: nat, x: nat, y: nat)
    requires panel.Valid() && width <= 128 && height <= 64 && x < width && y < height
    requires RowIs(panel, padded, width, height, pages, height - 1 - y)
    ensures DisplayGrey(panel, height, x, y) == if PaddedBit(padded, pages, x, y) then 15 else 0
  {
    hide PaddedBit;
    var c := x / 2;
    assert ShowsTwo(panel.ram[height - 1 - y, c], padded, width, pages, c, y);
    assert x == 2 * c || x == 2 * c + 1;
  }

  lemma PaddedBitIs(padded: seq<byte>, data: seq<byte>, width: nat, height: nat, moved: nat, pages: nat, x: nat, y: nat)
    requires IsPadded(padded, data, width, height, moved, pages) && x < width && y < height && y < 8 * pages
    ensures PaddedBit(padded, pages, x, y) == (moved <= y && Pixel(data, height, x, y - moved))
  {
    hide Bit, IsColumnAt, Column, Pixel;
    var column := Column(padded, pages, x);
    assert |column| == pages && IsColumnAt(column, data, x, height, moved);
    PaddedPixel(column, data, x, height, moved, y);
  }

  /**
   tm13264cbcg_draw_bitmap for LCD_TM13264CBCG_MODE_SSD0323_128x64. The mode ignores where the bitmap lies: it draws
   from column 0, with the last row of the bitmap in row 0 of the panel.
   */
  method DrawBitmap(info: BitmapData, panel: Ssd0323)
    requires Holds(info.data[..], Start(info.width, info.height)) && panel.Valid() && panel.command == []
    requires info.width <= 128 && info.height <= 64
    modifies panel, panel.ram
    ensures panel.Valid() && panel.command == []
    ensures GreyShows(panel, info.data[..], info.width, info.height, Displacement(info.top, info.height))
    ensures forall r: nat, c: nat ::
              r < GREY_ROWS && c < GREY_COLUMNS && (r >= info.height || c >= RowBytes(info.width)) ==>
              panel.ram[r, c] == old(panel.ram[r, c])
  {
    hide Start, IsPadded, Displacement, RowsAre, GreyShows, Pages, RowBytes;
    ghost var data := info.data[..];
    var rowMin, rowMax := info.top / 8, (info.top + info.height + 7) / 8;
    RowsOfPages(info.top, info.height);
    var padded, past := Pad(info);
    ghost var bits := padded.data[..];
    PaddedLength(bits, data, info.width, info.height, Displacement(info.top, info.height), rowMax - rowMin);
    var j := rowMin;
    while j < rowMax
      modifies panel, panel.ram
      invariant rowMin <= j <= rowMax && panel.Valid() && panel.command == [] && padded.data[..] == bits
      invariant j > rowMin ==> RowsAre(panel, bits, info.width, info.height, rowMax - rowMin)
      invariant forall r: nat, c: nat ::
                  r < GREY_ROWS && c < GREY_COLUMNS && (r >= info.height || c >= RowBytes(info.width)) ==>
                  panel.ram[r, c] == old(panel.ram[r, c])
    {
      DrawRows(padded.data, info.width, info.height, rowMax - rowMin, panel);
      j := j + 1;
    }
    if rowMin == rowMax { NoRows(panel, bits, info.width, rowMax - rowMin); }
    RowsShow(panel, bits, data, info.width, info.height, Displacement(info.top, info.height), rowMax - rowMin);
  }

  lemma NoRows(panel: Ssd0323, padded: seq<byte>, width: nat, rowHeight: nat)
    requires panel.Valid() && width <= 128
    ensures RowsAre(panel, padded, width, 0, rowHeight)
  {
  }

  /**
   One bitmap on a page-addressed and on the grey panel: every pixel of the one is lit exactly when its counterpart on
   the other is. For a display buffer, which starts at row 0 and is not displaced, the counterparts are those of the
   same (x, y); for any other bitmap the page panel has it `base` rows further down.
   */
  method DrawOnBoth(mode: Mode, info: BitmapData, p: PagePanel, q: Ssd0323)
    requires Holds(info.data[..], Start(info.width, info.height)) && p.Valid() && q.Valid() && q.command == []
    requires PanelColumn(mode, info.left, info.width) <= COLUMNS && info.width <= 128 && info.height <= 64
    requires (info.top + info.height + 7) / 8 <= if mode == Config985 then 8 else PAGES
    requires p.ram != q.ram
    modifies p, p.ram, q, q.ram
    ensures p.Valid() && q.Valid() && q.command == []
    ensures var base := info.top - info.top % 8;
            forall x: nat, y: nat :: x < info.width && y < info.height ==>
              (DisplayPixel(p, mode, info.left, (info.top + info.height + 7) / 8, x, base + y)
               <==> DisplayGrey(q, info.height, x, y) == 15)
    ensures info.top == info.height % 8 == 0 ==>
              forall x: nat, y: nat :: x < info.width && y < info.height ==>
                DisplayPixel(p, mode, info.left, info.height / 8, x, y) == Pixel(info.data[..], info.height, x, y)
  {
    hide PanelShows, GreyShows, Displacement, DisplayPixel, DisplayGrey, Pixel, Start, PanelColumn, InRows, Blank;
    ghost var data := info.data[..];
    Panel.DrawBitmap(mode, info, p);
    label drawn:
    DrawBitmap(info, q);
    assert info.data[..] == data;
    forall x: nat, y: nat | x < info.width && y < info.height
      ensures DisplayPixel(p, mode, info.left, (info.top + info.height + 7) / 8, x, info.top - info.top % 8 + y)
         <==> DisplayGrey(q, info.height, x, y) == 15
      ensures info.top == info.height % 8 == 0 ==>
                DisplayPixel(p, mode, info.left, info.height / 8, x, y) == Pixel(data, info.height, x, y)
    {
      SamePixel(p, mode, q, data, info.left, info.width, info.height, info.top, x, y);
    }
  }

  lemma SamePixel(p: PagePanel, mode: Mode, q: Ssd0323, data: seq<byte>, left: nat, width: nat, height: nat, top: nat,
                  x: nat, y: nat)
    requires p.Valid() && q.Valid() && width <= 128 && height <= 64 && x < width && y < height
    requires PanelShows(p, mode, data, left, width, height, top - top % 8 + Displacement(top, height),
                        top / 8, (top + height + 7) / 8)
    requires GreyShows(q, data, width, height, Displacement(top, height))
    ensures DisplayPixel(p, mode, left, (top + height + 7) / 8, x, top - top % 8 + y)
       <==> DisplayGrey(q, height, x, y) == 15
    ensures top == height % 8 == 0 ==>
              DisplayPixel(p, mode, left, height / 8, x, y) == Pixel(data, height, x, y)
  {
    hide DisplayPixel, DisplayGrey, Pixel;
    var moved, base, z := Displacement(top, height), top - top % 8, top - top % 8 + y;
    assert 8 * (top / 8) == base && z < 8 * ((top + height + 7) / 8);
    assert DisplayPixel(p, mode, left, (top + height + 7) / 8, x, z)
        == (base + moved <= z < base + moved + height && Pixel(data, height, x, z - (base + moved)));
    assert z - (base + moved) == y - moved;
  }
}
