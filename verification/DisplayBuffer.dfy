/** set_display_byte of kernel/linux_bast/reciva/reciva_lcd_tm13264cbcg.c. */
module DisplayBuffer {
  import opened Bits
  import opened PadBitmap

  /** Pixel y of column x of a page-aligned bitmap. */
  lemma PixelIn(data: seq<byte>, pages: nat, x: nat, y: nat)
    requires y < 8 * pages && Start(x, pages) + pages <= |data|
    ensures Pixel(data, 8 * pages, x, y) == Bit(data[Start(x, pages) + y / 8], y % 8)
  {
    hide Pixel, Bit, Start;
    PixelOfPage(data, pages, x, y);
    ColumnIs(data, pages, x);
  }

  lemma {:induction false} ColumnsApart(x: nat, z: nat, n: nat)
    requires x < z
    ensures Start(x, n) + n <= Start(z, n)
  {
    ColumnFits(x, z, n);
  }

  /** Eight pixels of one column change, and no other; columns wrap around the width. */
  method SetDisplayByte(xpos: int, row: nat, value: byte, bitmap: BitmapData)
    requires bitmap.width > 0 && 0 <= xpos + bitmap.width && bitmap.height % 8 == 0 && row < bitmap.height / 8
    requires Start(bitmap.width, bitmap.height / 8) <= bitmap.data.Length
    modifies bitmap.data
    ensures forall x: nat, y: nat :: x < bitmap.width && y < bitmap.height ==>
              Pixel(bitmap.data[..], bitmap.height, x, y)
              == if x == xpos % bitmap.width && y / 8 == row then Bit(value, y % 8)
                 else Pixel(old(bitmap.data[..]), bitmap.height, x, y)
  {
    hide Start, Pixel, Bit;
    ghost var pages, was := bitmap.height / 8, bitmap.data[..];
    var column := (xpos + bitmap.width) % bitmap.width;
    WrappedColumn(xpos, bitmap.width);
    ColumnFits(column, bitmap.width, pages);
    Eighth(column, pages);
    var offset := Start(column, bitmap.height) / 8 + row;
    bitmap.data[offset] := value;
    forall x: nat, y: nat | x < bitmap.width && y < bitmap.height
      ensures Pixel(bitmap.data[..], bitmap.height, x, y)
           == if x == column && y / 8 == row then Bit(value, y % 8) else Pixel(was, bitmap.height, x, y)
    {
      ColumnFits(x, bitmap.width, pages);
      PixelIn(bitmap.data[..], pages, x, y);
      PixelIn(was, pages, x, y);
      if x < column { ColumnsApart(x, column, pages); }
      if column < x { ColumnsApart(column, x, pages); }
    }
  }

  lemma WrappedColumn(xpos: int, width: nat)
    requires width > 0
    ensures (xpos + width) % width == xpos % width
  {
    var q := xpos / width;
    assert xpos == q * width + xpos % width;
    assert xpos + width == (q + 1) * width + xpos % width;
    DivIs(xpos + width, width, q + 1, xpos % width);
  }
}
