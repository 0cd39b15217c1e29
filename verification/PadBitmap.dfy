/** pad_bitmap of kernel/linux_bast/reciva/reciva_lcd_tm13264cbcg.c. */
module PadBitmap {
  import opened Bits
  import opened Bitmap

  /**
   b is byte j of a column of `height` pixels, bits number `offset` on of data, that has been moved down by `shift`
   pixels; the pixels above and below it are blank.
   */
  predicate IsColumnByte(b: byte, data: seq<byte>, offset: nat, height: nat, shift: nat, j: nat)
    requires offset + height <= 8 * |data|
  {
    forall i: nat | i < 8 ::
      Bit(b, i) == (shift <= 8 * j + i < shift + height && BitAt(data, offset + (8 * j + i - shift)))
  }

  /** The first pages of the column. */
  predicate IsColumn(pages: seq<byte>, data: seq<byte>, offset: nat, height: nat, shift: nat)
    requires offset + height <= 8 * |data|
  {
    forall j :: 0 <= j < |pages| ==> IsColumnByte(pages[j], data, offset, height, shift, j)
  }

  lemma OneMorePage(pages: seq<byte>, b: byte, data: seq<byte>, offset: nat, height: nat, shift: nat)
    requires offset + height <= 8 * |data|
    requires IsColumn(pages, data, offset, height, shift)
    requires IsColumnByte(b, data, offset, height, shift, |pages|)
    ensures IsColumn(pages + [b], data, offset, height, shift)
  {
    hide IsColumnByte;
  }

  /** The data of a bitmap, in a buffer of the size that new_bitmap and the draw ioctl allocate. */
  predicate Holds(data: seq<byte>, total: nat) {
    total / 8 + 1 <= |data|
  }

  /** A buffer of `width * height / 8 + 1` bytes is enough. */
  lemma AllocatedHolds(data: seq<byte>, width: nat, height: nat)
    requires |data| == width * height / 8 + 1
    ensures Holds(data, Start(width, height))
  {
  }

  /** A read_byte at this offset also looks at the byte after such a buffer. */
  predicate PastEnd(total: nat, offset: nat) {
    offset % 8 != 0 && offset / 8 + 1 == total / 8 + 1
  }

  lemma PastEndIs(total: nat, offset: nat)
    requires offset <= total
    ensures PastEnd(total, offset) <==> total - offset < total % 8
  {
  }

  lemma FirstByte(data: seq<byte>, total: nat, offset: nat, height: nat, shift: nat, beyond: byte)
    requires Holds(data, total) && offset + height <= total && shift < 8 <= height + shift
    ensures IsColumnByte(ShlByte(ReadByte(data, total / 8 + 2, offset, 8 - shift, beyond), shift),
                         data, offset, height, shift, 0)
  {
    hide Bit, Low, Pow2, BitAt, ReadByte;
    var r := ReadByte(data, total / 8 + 2, offset, 8 - shift, beyond);
    forall i: nat | i < 8
      ensures Bit(ShlByte(r, shift), i) == (shift <= i && BitAt(data, offset + (i - shift)))
    {
      BitLow(r * Pow2(shift), 8, i);
      BitShl(r, shift, i);
      if shift <= i { ReadByteBits(data, total / 8 + 2, offset, 8 - shift, beyond, i - shift); }
    }
  }

  lemma LaterByte(data: seq<byte>, total: nat, offset: nat, height: nat, shift: nat, j: nat, count: nat, beyond: byte)
    requires Holds(data, total) && offset + height <= total && shift < 8 && j >= 1 && count <= 8
    requires (count == 8 && 8 * j + 8 <= height + shift) || 8 * j + count == height + shift
    ensures IsColumnByte(ReadByte(data, total / 8 + 2, offset + (8 * j - shift), count, beyond),
                         data, offset, height, shift, j)
  {
    hide Bit, BitAt, ReadByte;
    var r := ReadByte(data, total / 8 + 2, offset + (8 * j - shift), count, beyond);
    forall i: nat | i < 8
      ensures Bit(r, i)
           == (8 * j + i < shift + height && BitAt(data, offset + (8 * j + i - shift)))
    {
      ReadByteBits(data, total / 8 + 2, offset + (8 * j - shift), count, beyond, i);
    }
  }

  /** A byte outside the column is blank. */
  lemma BlankByte(b: byte, data: seq<byte>, offset: nat, height: nat, shift: nat, j: nat)
    requires offset + height <= 8 * |data| && height + shift <= 8 * j
    requires IsColumnByte(b, data, offset, height, shift, j)
    ensures b == 0
  {
    hide Bit, BitAt;
    PowersOfTwo();
    forall i: nat | i < 8
      ensures Bit(b, i) == Bit(0, i)
    {
      ZeroBit(i);
    }
    Extensionality(b, 0, 8);
  }

  /** The number of pages that a column of that height occupies. */
  function Pages(height: nat, shift: nat): nat {
    (height + shift + 7) / 8
  }

  /** How many bits the last read of a column takes. */
  function LastCount(height: nat, shift: nat): nat {
    if height + shift < 8 then height else if height + shift == 8 then 0 else (height + shift - 1) % 8 + 1
  }

  /**
   The loop of pad_bitmap for one column that fills at least its first page. `past` says whether it looked at the byte
   after the buffer.
   */
  method PadColumn(data: array<byte>, inputDataLen: nat, ghost total: nat, offset: nat, height: nat, shift: nat,
                   result: array<byte>, target: nat) returns (ghost past: bool)
    requires data != result && inputDataLen == total / 8 + 2 && Holds(data[..], total) && offset + height <= total
    requires shift < 8 <= height + shift && target + Pages(height, shift) < result.Length
    modifies result
    ensures IsColumn(result[target..target + Pages(height, shift)], data[..], offset, height, shift)
    ensures forall p :: 0 <= p < target || target + Pages(height, shift) < p < result.Length ==>
              result[p] == old(result[p])
    ensures result[target + Pages(height, shift)]
         == if Pages(height, shift) == 1 then 0 else old(result[target + Pages(height, shift)])
    ensures past <==> total - (offset + height) + LastCount(height, shift) < total % 8
  {
    hide IsColumnByte, IsColumn, ReadByte, ShlByte, PastEnd;
    ghost var pages, bits := Pages(height, shift), data[..];
    var beyond: byte := *;
    var first := ReadByte(data[..], inputDataLen, offset, 8 - shift, beyond);
    past := PastEnd(total, offset);
    PastEndIs(total, offset);
    FirstByte(bits, total, offset, height, shift, beyond);
    NoPages(bits, offset, height, shift);
    OneMorePage([], ShlByte(first, shift), bits, offset, height, shift);
    result[target] := ShlByte(first, shift);
    assert result[target..target + 1] == [] + [ShlByte(first, shift)];
    var bitsRead, j := 8 - shift, 1;
    while bitsRead < height - 8
      invariant bitsRead == 8 * j - shift && 1 <= j <= pages && (j > 1 ==> bitsRead < height)
      invariant IsColumn(result[target..target + j], bits, offset, height, shift)
      invariant forall p :: 0 <= p < target || target + j <= p < result.Length ==> result[p] == old(result[p])
      invariant data[..] == bits
      invariant past ==> total - (offset + bitsRead) < total % 8
    {
      beyond := *;
      LaterByte(bits, total, offset, height, shift, j, 8, beyond);
      var b := ReadByte(data[..], inputDataLen, offset + bitsRead, 8, beyond);
      past := past || PastEnd(total, offset + bitsRead);
      PastEndIs(total, offset + bitsRead);
      OneMorePage(result[target..target + j], b, bits, offset, height, shift);
      StorePage(result, target, j, b);
      bitsRead := bitsRead + 8;
      j := j + 1;
    }
    beyond := *;
    LaterByte(bits, total, offset, height, shift, j, height - bitsRead, beyond);
    var b := ReadByte(data[..], inputDataLen, offset + bitsRead, height - bitsRead, beyond);
    past := past || PastEnd(total, offset + bitsRead);
    PastEndIs(total, offset + bitsRead);
    if pages == 1 {
      BlankByte(b, bits, offset, height, shift, j);
    } else {
      OneMorePage(result[target..target + j], b, bits, offset, height, shift);
    }
    ghost var column := result[target..target + j];
    StorePage(result, target, j, b);
    assert pages == 1 ==> result[target..target + j] == column;
  }

  lemma NoPages(data: seq<byte>, offset: nat, height: nat, shift: nat)
    requires offset + height <= 8 * |data|
    ensures IsColumn([], data, offset, height, shift)
  {
  }

  /** `result.data[targetbyteoffset] = b` for page j of a column. */
  method StorePage(result: array<byte>, target: nat, j: nat, b: byte)
    requires target + j < result.Length
    modifies result
    ensures result[target..target + j + 1] == old(result[target..target + j]) + [b]
    ensures forall p :: 0 <= p < result.Length && p != target + j ==> result[p] == old(result[p])
  {
    result[target + j] := b;
  }

  // ---------------------------------------------------------------- all columns

  /** struct bitmap_data. */
  datatype BitmapData = BitmapData(left: nat, top: nat, width: nat, height: nat, data: array<byte>)

  /** How far down pad_bitmap moves the pixels: a column that leaves its first page unfilled goes somewhere else. */
  function Displacement(top: nat, height: nat): nat {
    if height + top % 8 >= 8 || height == top % 8 == 0 then top % 8 else 8 - top % 8
  }

  /** Where column x starts when every column has n elements. */
  function Start(x: nat, n: nat): nat {
    x * n
  }

  /** Column x of a bitmap whose columns have that many pages. */
  function Column(s: seq<byte>, pages: nat, x: nat): seq<byte> {
    if Start(x, pages) + pages <= |s| then s[Start(x, pages)..Start(x, pages) + pages] else []
  }

  /** The pages are those of column x of data, moved down. */
  predicate IsColumnAt(pages: seq<byte>, data: seq<byte>, x: nat, height: nat, moved: nat) {
    Start(x, height) + height <= 8 * |data| && IsColumn(pages, data, Start(x, height), height, moved)
  }

  /** Columns number 0 to x - 1 are in place. */
  predicate IsPadded(s: seq<byte>, data: seq<byte>, x: nat, height: nat, moved: nat, pages: nat) {
    forall c: nat :: c < x ==> |Column(s, pages, c)| == pages && IsColumnAt(Column(s, pages, c), data, c, height, moved)
  }

  lemma NextStart(x: nat, n: nat)
    ensures Start(x + 1, n) == Start(x, n) + n
  {
  }

  lemma {:induction false} ColumnFits(x: nat, width: nat, n: nat)
    requires x < width
    ensures Start(x, n) + n <= Start(width, n) && Start(x + 1, n) == Start(x, n) + n
    decreases width
  {
    hide Start;
    NextStart(x, n);
    NextStart(width - 1, n);
    if x < width - 1 { ColumnFits(x, width - 1, n); }
  }

  /** Writing column x leaves the columns before it alone. */
  lemma OneMoreColumn(s: seq<byte>, t: seq<byte>, data: seq<byte>, x: nat, height: nat, moved: nat, pages: nat)
    requires IsPadded(s, data, x, height, moved, pages) && |s| == |t| && Start(x, pages) + pages <= |s|
    requires s[..Start(x, pages)] == t[..Start(x, pages)]
    requires IsColumnAt(Column(t, pages, x), data, x, height, moved)
    ensures IsPadded(t, data, x + 1, height, moved, pages)
  {
    hide IsColumnAt, Column, Start;
    forall c: nat | c < x
      ensures Column(t, pages, c) == Column(s, pages, c)
    {
      ColumnFits(c, x, pages);
      ColumnKept(s, t, pages, c, Start(x, pages));
    }
    ColumnIs(t, pages, x);
  }

  lemma ColumnKept(s: seq<byte>, t: seq<byte>, pages: nat, c: nat, end: nat)
    requires |s| == |t| && Start(c, pages) + pages <= end <= |s| && s[..end] == t[..end]
    ensures Column(t, pages, c) == Column(s, pages, c)
  {
    hide Start;
    var a := Start(c, pages);
    SliceOfPrefix(s, a, a + pages, end);
    SliceOfPrefix(t, a, a + pages, end);
  }

  lemma SliceOfPrefix(s: seq<byte>, a: nat, b: nat, end: nat)
    requires a <= b <= end <= |s|
    ensures s[..end][a..b] == s[a..b]
  {
  }

  /** The short branch: `<<= 8 - top % 8`. */
  lemma ShortByte(data: seq<byte>, total: nat, offset: nat, height: nat, moved: nat, beyond: byte)
    requires Holds(data, total) && offset + height <= total && height < 8 && moved <= 8
    ensures IsColumn([ShlByte(ReadByte(data, total / 8 + 2, offset, height, beyond), moved)],
                     data, offset, height, moved)
  {
    hide Bit, Low, Pow2, BitAt, ReadByte;
    var r := ReadByte(data, total / 8 + 2, offset, height, beyond);
    var b := ShlByte(r, moved);
    forall i: nat | i < 8
      ensures Bit(b, i) == (moved <= i < moved + height && BitAt(data, offset + (i - moved)))
    {
      BitLow(r * Pow2(moved), 8, i);
      BitShl(r, moved, i);
      if moved <= i { ReadByteBits(data, total / 8 + 2, offset, height, beyond, i - moved); }
    }
    assert IsColumnByte(b, data, offset, height, moved, 0);
  }

  /** One iteration of pad_bitmap. */
  method PadOneColumn(data: array<byte>, ghost total: nat, inputDataLen: nat, offset: nat, height: nat, shift: nat,
                      result: array<byte>, target: nat) returns (ghost past: bool)
    requires data != result && inputDataLen == total / 8 + 2 && Holds(data[..], total) && offset + height <= total
    requires shift < 8 && height + shift > 0 && target + Pages(height, shift) < result.Length
    modifies result
    ensures IsColumn(result[target..target + Pages(height, shift)], data[..], offset, height,
                     if height + shift < 8 then 8 - shift else shift)
    ensures result[..target] == old(result[..target])
    ensures past <==> total - (offset + height) + LastCount(height, shift) < total % 8
  {
    hide IsColumn, ReadByte, ShlByte, PastEnd;
    if height + shift < 8 {
      var beyond: byte := *;
      ShortByte(data[..], total, offset, height, 8 - shift, beyond);
      PastEndIs(total, offset);
      past := PastEnd(total, offset);
      result[target] := ReadByte(data[..], inputDataLen, offset, height, beyond);
      result[target] := ShlByte(result[target], 8 - shift);
      assert result[target..target + 1] == [result[target]];
    } else {
      past := PadColumn(data, inputDataLen, total, offset, height, shift, result, target);
    }
  }

  lemma RoundedUp(height: nat, shift: nat)
    ensures 8 * Pages(height, shift)
         == height + shift + if (height + shift) % 8 != 0 then 8 - (height + shift) % 8 else 0
  {
  }

  lemma Eighth(w: nat, pages: nat)
    ensures Start(w, 8 * pages) == 8 * Start(w, pages)
  {
    assert w * (8 * pages) == 8 * (w * pages);
  }

  /** A bitmap that is already aligned. */
  lemma AlignedColumns(data: seq<byte>, width: nat, height: nat)
    requires height % 8 == 0 && Holds(data, Start(width, height))
    ensures IsPadded(data, data, width, height, 0, height / 8)
  {
    hide Bit, Column, IsColumnAt, Start;
    forall x: nat | x < width
      ensures |Column(data, height / 8, x)| == height / 8
      ensures IsColumnAt(Column(data, height / 8, x), data, x, height, 0)
    {
      ColumnFits(x, width, height);
      Eighth(x, height / 8);
      Eighth(width, height / 8);
      ColumnFits(x, width, height / 8);
      ColumnIs(data, height / 8, x);
      AlignedColumn(data, x, height, Start(x, height / 8));
    }
  }

  lemma AlignedColumn(data: seq<byte>, x: nat, height: nat, target: nat)
    requires height % 8 == 0 && Start(x, height) == 8 * target && 8 * target + height <= 8 * |data|
    ensures IsColumnAt(data[target..target + height / 8], data, x, height, 0)
  {
    hide Bit, Start;
    var pages := data[target..target + height / 8];
    forall j | 0 <= j < |pages|
      ensures IsColumnByte(pages[j], data, 8 * target, height, 0, j)
    {
      var b := pages[j];
      forall i: nat | i < 8
        ensures Bit(b, i) == BitAt(data, 8 * target + (8 * j + i))
      {
        assert 8 * target + (8 * j + i) == 8 * (target + j) + i;
      }
    }
  }

  /** When pad_bitmap looks at the byte after the buffer: its last read starts inside the last, partial byte. */
  predicate ReadsPastEnd(top: nat, width: nat, height: nat) {
    !(top % 8 == 0 && height % 8 == 0) && LastCount(height, top % 8) < Start(width, height) % 8
  }

  /** pad_bitmap, for buffers of the allocated size. `past` says whether it looked at the byte after the buffer. */
  method Pad(info: BitmapData) returns (result: BitmapData, ghost past: bool)
    requires Holds(info.data[..], Start(info.width, info.height))
    ensures if info.top % 8 == 0 && info.height % 8 == 0 then result == info else fresh(result.data)
    ensures result.left == info.left && result.width == info.width && result.top == info.top - info.top % 8
    ensures result.height == 8 * Pages(info.height, info.top % 8)
    ensures IsPadded(result.data[..], info.data[..], info.width, info.height, Displacement(info.top, info.height),
                     Pages(info.height, info.top % 8))
    ensures past <==> ReadsPastEnd(info.top, info.width, info.height)
  {
    hide IsColumn, IsColumnAt, IsPadded, Start, LastCount;
    if info.top % 8 == 0 && info.height % 8 == 0 {
      AlignedColumns(info.data[..], info.width, info.height);
      return info, false;
    }
    var newTop := info.top - info.top % 8;
    var shift := info.top - newTop;
    var newHeight := info.height + shift;
    if (info.height + shift) % 8 != 0 {
      newHeight := newHeight + (8 - (info.height + shift) % 8);
    }
    ghost var pages := Pages(info.height, shift);
    RoundedUp(info.height, shift);
    Eighth(info.width, pages);
    var padded := new byte[Start(info.width, newHeight) / 8 + 1](i => 0);
    past := PadColumns(info, newHeight, shift, padded);
    result := BitmapData(info.left, newTop, info.width, newHeight, padded);
  }

  /** The loop of pad_bitmap over the columns. */
  method PadColumns(info: BitmapData, newHeight: nat, shift: nat, padded: array<byte>) returns (ghost past: bool)
    requires Holds(info.data[..], Start(info.width, info.height)) && info.data != padded
    requires shift < 8 && info.height + shift > 0 && newHeight == 8 * Pages(info.height, shift)
    requires padded.Length == Start(info.width, Pages(info.height, shift)) + 1
    modifies padded
    ensures IsPadded(padded[..], info.data[..], info.width, info.height,
                     if info.height + shift < 8 then 8 - shift else shift, Pages(info.height, shift))
    ensures past <==> LastCount(info.height, shift) < Start(info.width, info.height) % 8
  {
    hide IsColumn, Column, Start, IsPadded, LastCount;
    var inputDataLen := Start(info.width, info.height) / 8 + 2;
    ghost var pages, bits := Pages(info.height, shift), info.data[..];
    ghost var moved := if info.height + shift < 8 then 8 - shift else shift;
    ghost var total, last := Start(info.width, info.height), LastCount(info.height, shift);
    NothingPadded(padded[..], bits, info.height, moved, pages);
    StartOfNone(info.height);
    past := false;
    var x := 0;
    while x < info.width
      invariant x <= info.width && info.data[..] == bits
      invariant IsPadded(padded[..], bits, x, info.height, moved, pages)
      invariant past <==> x > 0 && total - Start(x, info.height) + last < total % 8
    {
      ghost var was := padded[..];
      ColumnFits(x, info.width, info.height);
      ColumnFits(x, info.width, pages);
      Eighth(x, pages);
      var offset, target := Start(x, info.height), Start(x, newHeight) / 8;
      ghost var here :=
        PadOneColumn(info.data, total, inputDataLen, offset, info.height, shift, padded, target);
      past := past || here;
      ColumnIs(padded[..], pages, x);
      OneMoreColumn(was, padded[..], bits, x, info.height, moved, pages);
      x := x + 1;
    }
  }

  lemma StartOfNone(n: nat)
    ensures Start(0, n) == 0
  {
  }

  lemma ColumnIs(s: seq<byte>, pages: nat, x: nat)
    requires Start(x, pages) + pages <= |s|
    ensures Column(s, pages, x) == s[Start(x, pages)..Start(x, pages) + pages]
  {
  }

  lemma NothingPadded(s: seq<byte>, data: seq<byte>, height: nat, moved: nat, pages: nat)
    ensures IsPadded(s, data, 0, height, moved, pages)
  {
  }

  // ---------------------------------------------------------------- the picture

  /** Pixel (x, y) of packed columns of that height. */
  predicate Pixel(data: seq<byte>, height: nat, x: nat, y: nat) {
    Start(x, height) + y < 8 * |data| && BitAt(data, Start(x, height) + y)
  }

  /** The pages show the picture: it lies `shift` pixels down and everything around it is blank. */
  predicate Shows(padded: seq<byte>, data: seq<byte>, width: nat, height: nat, shift: nat, pages: nat) {
    forall x: nat, y: nat :: x < width && y < 8 * pages ==>
      Pixel(padded, 8 * pages, x, y) == (shift <= y < shift + height && Pixel(data, height, x, y - shift))
  }

  predicate Blank(data: seq<byte>, width: nat, height: nat) {
    forall x: nat, y: nat :: x < width && y < height ==> !Pixel(data, height, x, y)
  }

  /** Pixel y of a column lies in bit y % 8 of page y / 8. */
  lemma PixelOfPage(padded: seq<byte>, pages: nat, x: nat, y: nat)
    requires y < 8 * pages && Start(x, pages) + pages <= |padded|
    ensures |Column(padded, pages, x)| == pages
    ensures Pixel(padded, 8 * pages, x, y) == Bit(Column(padded, pages, x)[y / 8], y % 8)
  {
    hide Start, Bit;
    Eighth(x, pages);
    var a := Start(x, pages);
    assert 8 * a + y == 8 * (a + y / 8) + y % 8;
  }

  /** Every pixel of a padded bitmap: the source's, `moved` pixels down. */
  lemma PaddedPicture(padded: seq<byte>, data: seq<byte>, width: nat, height: nat, moved: nat, pages: nat)
    requires IsPadded(padded, data, width, height, moved, pages)
    ensures Shows(padded, data, width, height, moved, pages)
  {
    hide Start, Bit, BitAt, Column;
    forall x: nat, y: nat | x < width && y < 8 * pages
      ensures Pixel(padded, 8 * pages, x, y) == (moved <= y < moved + height && Pixel(data, height, x, y - moved))
    {
      hide Pixel;
      var column := Column(padded, pages, x);
      assert |column| == pages && IsColumnAt(column, data, x, height, moved);
      PaddedPixel(column, data, x, height, moved, y);
      ColumnLength(padded, pages, x);
      PixelOfPage(padded, pages, x, y);
    }
  }

  lemma ColumnLength(s: seq<byte>, pages: nat, x: nat)
    requires pages > 0 && |Column(s, pages, x)| == pages
    ensures Start(x, pages) + pages <= |s|
  {
  }

  lemma PaddedPixel(column: seq<byte>, data: seq<byte>, x: nat, height: nat, moved: nat, y: nat)
    requires y < 8 * |column| && IsColumnAt(column, data, x, height, moved)
    ensures Bit(column[y / 8], y % 8) == (moved <= y < moved + height && Pixel(data, height, x, y - moved))
  {
    hide Start, Bit, BitAt;
    assert IsColumnByte(column[y / 8], data, Start(x, height), height, moved, y / 8);
    var i := y % 8;
    assert 8 * (y / 8) + i == y;
    assert Bit(column[y / 8], i)
        == (moved <= y < moved + height && BitAt(data, Start(x, height) + (8 * (y / 8) + i - moved)));
  }

  /**
   pad_bitmap keeps the picture exactly when every column reaches the end of its first page, or the two
   displacements coincide, or there is nothing to see.
   */
  lemma PictureKept(padded: seq<byte>, data: seq<byte>, top: nat, width: nat, height: nat)
    requires IsPadded(padded, data, width, height, Displacement(top, height), Pages(height, top % 8))
    ensures Shows(padded, data, width, height, top % 8, Pages(height, top % 8))
       <==> (height + top % 8 >= 8 || top % 8 == 4 || Blank(data, width, height))
  {
    hide IsPadded, Pixel;
    var moved, pages := Displacement(top, height), Pages(height, top % 8);
    PaddedPicture(padded, data, width, height, moved, pages);
    if height + top % 8 < 8 && top % 8 != 4 && Shows(padded, data, width, height, top % 8, pages) {
      forall x: nat, y: nat | x < width && y < height
        ensures !Pixel(data, height, x, y)
      {
        if Pixel(data, height, x, y) { NoLowestPixel(padded, data, width, height, top % 8, x, y); }
      }
    }
  }

  /** A picture that is shown in two places, one page high, has no lowest pixel. */
  lemma {:induction false} NoLowestPixel(
      padded: seq<byte>, data: seq<byte>, width: nat, height: nat, shift: nat, x: nat, y: nat)
    requires height + shift < 8 && shift != 4 && x < width && y < height
    requires Shows(padded, data, width, height, shift, 1) && Shows(padded, data, width, height, 8 - shift, 1)
    requires Pixel(data, height, x, y)
    ensures false
  {
    hide Pixel;
    hide Shows;
    var moved := 8 - shift;
    var there := if shift < moved then shift + y else moved + y;
    ShownAt(padded, data, width, height, shift, 1, x, there);
    ShownAt(padded, data, width, height, moved, 1, x, there);
    NoLowestPixel(padded, data, width, height, shift, x, if shift < moved then there - moved else there - shift);
  }

  lemma ShownAt(padded: seq<byte>, data: seq<byte>, width: nat, height: nat, shift: nat, pages: nat, x: nat, y: nat)
    requires Shows(padded, data, width, height, shift, pages) && x < width && y < 8 * pages
    ensures Pixel(padded, 8 * pages, x, y) == (shift <= y < shift + height && Pixel(data, height, x, y - shift))
  {
    hide Pixel;
  }

  /** One column of four pixels, the top one lit, at row 1: it appears in row 7, and row 1 is blank. */
  lemma DisplacedPicture(padded: seq<byte>)
    requires IsPadded(padded, [0x01], 1, 4, Displacement(1, 4), Pages(4, 1))
    ensures Pixel([0x01], 4, 0, 0) && !Pixel(padded, 8, 0, 1) && Pixel(padded, 8, 0, 7)
  {
    hide Pixel, IsPadded;
    assert Displacement(1, 4) == 7 && Pages(4, 1) == 1;
    assert Pixel([0x01], 4, 0, 0) by { TopPixel(); }
    PaddedPicture(padded, [0x01], 1, 4, 7, 1);
    ShownAt(padded, [0x01], 1, 4, 7, 1, 0, 1);
    ShownAt(padded, [0x01], 1, 4, 7, 1, 0, 7);
  }

  lemma TopPixel()
    ensures Pixel([0x01], 4, 0, 0)
  {
  }
}
