/**
 * The text renderer of the PaPiRus driver: a multi-line string is stamped
 * line by line onto a zeroed greyscale canvas, and the canvas is then packed,
 * pixel by pixel in row-major order, into the byte stream the panel expects.
 *
 * Font rasterisation is not modelled: the step that stamps one line of glyphs
 * onto the canvas is a parameter `setLine` of the operations that need it.
 */
module TextRendering {

  /** One 8-bit greyscale intensity, as stored in a `Luma<u8>` pixel. */
  type Luma = v: int | 0 <= v < 256

  /** A canvas as a sequence of rows; `img[y][x]` is the pixel at column x, row y. */
  type Image = seq<seq<Luma>>

  /** The canvas geometry of a renderer. */
  datatype ImageSize = ImageSize(xSize: nat, ySize: nat)

  /** A renderer; its font and its floating-point scale are not part of this model. */
  datatype TextRenderer = TextRenderer(size: ImageSize)

  /** The column at which the packer always flushes, whatever the canvas width. */
  const LegacyFlushColumn: nat := 199

  /** The default panel geometry. */
  const DefaultWidth: nat := 200
  const DefaultHeight: nat := 90

  // ---------------------------------------------------------------------------
  // Construction
  // ---------------------------------------------------------------------------

  /** `TextRenderer::new`: the renderer keeps the canvas size it is given. */
  function NewRenderer(size: ImageSize): (r: TextRenderer)
    ensures r.size == size
  {
    TextRenderer(size)
  }

  /** `TextRenderer::default`: a 200 x 90 canvas. */
  function DefaultRenderer(): (r: TextRenderer)
    ensures r.size.xSize == 200 && r.size.ySize == 90
    ensures r.size.xSize % 8 == 0 && r.size.xSize / 8 == 25
  {
    TextRenderer(ImageSize(DefaultWidth, DefaultHeight))
  }

  /** Every row of `img` holds exactly `w` pixels and there are `h` rows. */
  predicate IsCanvas(img: Image, w: nat, h: nat)
  {
    |img| == h && forall y :: 0 <= y < |img| ==> |img[y]| == w
  }

  /** Every pixel of `img` is zero (background). */
  predicate AllZero(img: Image)
  {
    forall y, x :: 0 <= y < |img| && 0 <= x < |img[y]| ==> img[y][x] == 0
  }

  /** Every pixel of `img` is non-zero (ink). */
  predicate AllInk(img: Image)
  {
    forall y, x :: 0 <= y < |img| && 0 <= x < |img[y]| ==> img[y][x] != 0
  }

  /** A freshly allocated canvas of the given size: every pixel zero. */
  function Blank(size: ImageSize): (img: Image)
    ensures IsCanvas(img, size.xSize, size.ySize)
    ensures AllZero(img)
  {
    seq(size.ySize, _ => seq(size.xSize, _ => 0 as Luma))
  }

  // ---------------------------------------------------------------------------
  // Bits of a byte
  // ---------------------------------------------------------------------------

  /** The byte with bit k set and no other, 1 << k, written as a table; BitIsShift proves it equals the shift. */
  function Bit(k: nat): bv8
    requires k < 8
  {
    if k == 0 then 0x01 else if k == 1 then 0x02 else if k == 2 then 0x04 else if k == 3 then 0x08
    else if k == 4 then 0x10 else if k == 5 then 0x20 else if k == 6 then 0x40 else 0x80
  }

  /** Bit(k) is the byte 1 << k. */
  lemma BitIsShift(k: nat)
    requires k < 8
    ensures Bit(k) == (1 as bv8) << k
  {
  }

  /** Bit k (bit 0 is the least significant) of b is one. */
  predicate BitSet(b: bv8, k: nat)
    requires k < 8
  {
    b & Bit(k) != 0
  }

  /** `u8::reverse_bits`: bit k of the result is bit 7 - k of the argument. */
  function ReverseBits(b: bv8): bv8
  {
    ((b & 0x01) << 7) | ((b & 0x02) << 5) | ((b & 0x04) << 3) | ((b & 0x08) << 1) |
    ((b & 0x10) >> 1) | ((b & 0x20) >> 3) | ((b & 0x40) >> 5) | ((b & 0x80) >> 7)
  }

  /** Two bytes are equal when they agree on every bit. */
  lemma BitsDetermineByte(a: bv8, b: bv8)
    requires forall k :: 0 <= k < 8 ==> (BitSet(a, k) <==> BitSet(b, k))
    ensures a == b
  {
    assert BitSet(a, 0) == BitSet(b, 0);
    assert BitSet(a, 1) == BitSet(b, 1);
    assert BitSet(a, 2) == BitSet(b, 2);
    assert BitSet(a, 3) == BitSet(b, 3);
    assert BitSet(a, 4) == BitSet(b, 4);
    assert BitSet(a, 5) == BitSet(b, 5);
    assert BitSet(a, 6) == BitSet(b, 6);
    assert BitSet(a, 7) == BitSet(b, 7);
  }

  /** Reversal sends bit 7 - k to bit k. */
  lemma ReverseBitsAt(b: bv8, k: nat)
    requires k < 8
    ensures BitSet(ReverseBits(b), k) <==> BitSet(b, 7 - k)
  {
  }

  /** Reversal is an involution. */
  lemma ReverseBitsInvolution(b: bv8)
    ensures ReverseBits(ReverseBits(b)) == b
  {
    forall k | 0 <= k < 8
      ensures BitSet(ReverseBits(ReverseBits(b)), k) <==> BitSet(b, k)
    {
      ReverseBitsAt(ReverseBits(b), k);
      ReverseBitsAt(b, 7 - k);
    }
    BitsDetermineByte(ReverseBits(ReverseBits(b)), b);
  }

  /** Known patterns: the high bit becomes the low bit, and 0x00 and 0xFF are fixed points. */
  lemma ReverseBitsExamples()
    ensures ReverseBits(0x80) == 0x01 && ReverseBits(0x01) == 0x80
    ensures ReverseBits(0x00) == 0x00 && ReverseBits(0xFF) == 0xFF
    ensures ReverseBits(0xF0) == 0x0F && ReverseBits(0xA0) == 0x05
  {
  }

  /** Bit k of a | b is set iff it is set in a or in b. */
  lemma BitSetOr(a: bv8, b: bv8, k: nat)
    requires k < 8
    ensures BitSet(a | b, k) <==> BitSet(a, k) || BitSet(b, k)
  {
    var m := Bit(k);
    assert (a | b) & m == (a & m) | (b & m);
  }

  /** The byte 1 << m has bit m set and no other. */
  lemma BitSetSingle(m: nat, k: nat)
    requires m < 8 && k < 8
    ensures BitSet(Bit(m), k) <==> m == k
  {
  }

  // ---------------------------------------------------------------------------
  // The packer: `render_text`'s walk over the pixels
  // ---------------------------------------------------------------------------

  /** The flush test of the packer, on the pixel's column (not its linear index). */
  predicate IsFlushColumn(x: nat)
  {
    (x + 1) % 8 == 0 || x == LegacyFlushColumn
  }

  /** The contribution of pixel (x, _) with intensity v to the accumulator: bit 7 - x % 8 when on. */
  function PixelBit(x: nat, v: Luma): bv8
  {
    if 0 < v then Bit(7 - x % 8) else 0
  }

  /** The packer's state between two pixels: the accumulator byte and the bytes pushed so far. */
  datatype Packer = Packer(acc: bv8, data: seq<bv8>)

  const Initial: Packer := Packer(0, [])

  /** One pixel of the walk: OR its bit in; on a flush column push the reversed byte and reset. */
  function Step(p: Packer, x: nat, v: Luma): (q: Packer)
  {
    var acc := p.acc | PixelBit(x, v);
    if IsFlushColumn(x) then Packer(0, p.data + [ReverseBits(acc)]) else Packer(acc, p.data)
  }

  /** The conditional OR `render_text` performs is the OR of the pixel's bit. */
  lemma OrPixelBit(acc0: bv8, x: nat, v: Luma, acc: bv8)
    requires acc == if 0 < v then acc0 | Bit(7 - x % 8) else acc0
    ensures acc == acc0 | PixelBit(x, v)
  {
    if v == 0 {
      assert acc0 | 0 == acc0;
    }
  }

  /** The byte update `render_text` writes, `byte |= 1 << (7 - bit_offset)`, ORs in Bit(7 - bit_offset). */
  lemma OrShift(b: bv8, bitOffset: nat, r: bv8)
    requires bitOffset < 8 && r == b | ((1 as bv8) << (7 - bitOffset))
    ensures r == b | Bit(7 - bitOffset)
  {
    BitIsShift(7 - bitOffset);
  }

  /** Step as `render_text` performs it: the byte after the conditional OR, then the flush test. */
  lemma StepUpdate(p: Packer, x: nat, v: Luma, acc: bv8)
    requires acc == if 0 < v then p.acc | Bit(7 - x % 8) else p.acc
    ensures Step(p, x, v) == if IsFlushColumn(x) then Packer(0, p.data + [ReverseBits(acc)]) else Packer(acc, p.data)
  {
    OrPixelBit(p.acc, x, v, acc);
  }

  /** The walk over the first n columns of a row: columns 0, 1, ..., n - 1, in that order. */
  function PackRowTo(p: Packer, row: seq<Luma>, n: nat): Packer
    requires n <= |row|
  {
    if n == 0 then p else Step(PackRowTo(p, row, n - 1), n - 1, row[n - 1])
  }

  /** The walk over a whole row. */
  function PackRow(p: Packer, row: seq<Luma>): Packer
  {
    PackRowTo(p, row, |row|)
  }

  /** The walk over the first n rows, top to bottom; the accumulator is carried from row to row. */
  function PackRowsTo(p: Packer, rows: Image, n: nat): Packer
    requires n <= |rows|
  {
    if n == 0 then p else PackRow(PackRowsTo(p, rows, n - 1), rows[n - 1])
  }

  /** The bytes `render_text` returns for a canvas; a byte still in the accumulator at the end is dropped. */
  function Pack(img: Image): seq<bv8>
  {
    PackRowsTo(Initial, img, |img|).data
  }

  // ---------------------------------------------------------------------------
  // Flush points and output length
  // ---------------------------------------------------------------------------

  /** The literal 199 never adds a flush: 200 is a multiple of 8, so column 199 already ends a group. */
  lemma LegacyFlushRedundant(x: nat)
    ensures IsFlushColumn(x) <==> x % 8 == 7
  {
  }

  /** The first n pixels of a row push exactly one byte per flush column, that is n / 8 bytes, and keep what was pushed before. */
  lemma {:induction false} PackRowLength(p: Packer, row: seq<Luma>, n: nat)
    requires n <= |row|
    ensures |PackRowTo(p, row, n).data| == |p.data| + n / 8
    ensures PackRowTo(p, row, n).data[..|p.data|] == p.data
    decreases n
  {
    if n > 0 {
      var q := PackRowTo(p, row, n - 1);
      PackRowLength(p, row, n - 1);
      LegacyFlushRedundant(n - 1);
      assert q.data[..|p.data|] == p.data;
      assert PackRowTo(p, row, n).data[..|q.data|] == q.data;
    }
  }

  /** Rows of width w push w / 8 bytes each. */
  lemma {:induction false} PackRowsLength(p: Packer, rows: Image, n: nat, w: nat)
    requires n <= |rows| && IsCanvas(rows, w, |rows|)
    ensures |PackRowsTo(p, rows, n).data| == |p.data| + n * (w / 8)
    decreases n
  {
    if n > 0 {
      var c := w / 8;
      PackRowsLength(p, rows, n - 1, w);
      PackRowLength(PackRowsTo(p, rows, n - 1), rows[n - 1], |rows[n - 1]|);
      assert |rows[n - 1]| / 8 == c;
      MulSucc(n - 1, c);
    }
  }

  lemma MulSucc(a: nat, c: nat)
    ensures a * c + c == (a + 1) * c
  {
  }

  /** A w x h canvas packs to h * (w / 8) bytes, for every width. */
  lemma PackLength(img: Image, w: nat, h: nat)
    requires IsCanvas(img, w, h)
    ensures |Pack(img)| == h * (w / 8)
  {
    PackRowsLength(Initial, img, h, w);
  }

  /** The default 200 x 90 canvas packs to 25 bytes per row, 2250 bytes in all. */
  lemma DefaultPackLength(img: Image)
    requires IsCanvas(img, DefaultWidth, DefaultHeight)
    ensures |Pack(img)| == 2250
  {
    PackLength(img, DefaultWidth, DefaultHeight);
  }

  /** A canvas narrower than 8 columns reaches no flush column, so every pixel lands in the one accumulator and nothing is pushed. */
  lemma NarrowPackEmpty(img: Image, w: nat, h: nat)
    requires IsCanvas(img, w, h) && w < 8
    ensures Pack(img) == []
  {
    PackLength(img, w, h);
  }

  // ---------------------------------------------------------------------------
  // Bit layout when the width is a multiple of 8
  // ---------------------------------------------------------------------------

  /** The accumulator after ORing in the pixels at columns lo .. hi - 1 of a row, starting from zero. */
  function Accumulated(row: seq<Luma>, lo: nat, hi: nat): bv8
    requires lo <= hi <= |row|
    decreases hi - lo
  {
    if hi == lo then 0 else Accumulated(row, lo, hi - 1) | PixelBit(hi - 1, row[hi - 1])
  }

  /** The byte pushed for the group of columns 8j .. 8j + 7 of a row, when the group starts from a reset accumulator. */
  function GroupByte(row: seq<Luma>, j: nat): bv8
    requires 8 * j + 8 <= |row|
  {
    ReverseBits(Accumulated(row, 8 * j, 8 * j + 8))
  }

  lemma ColumnInGroup(j: nat, i: nat)
    requires i < 8
    ensures (8 * j + i) % 8 == i && (8 * j + i) / 8 == j
  {
  }

  /** Within a group, bit 7 - k of the accumulator is set iff column 8j + k has been walked and is on. */
  lemma {:induction false} AccumulatedBits(row: seq<Luma>, j: nat, i: nat, k: nat)
    requires i <= 8 && 8 * j + i <= |row| && k < 8
    ensures BitSet(Accumulated(row, 8 * j, 8 * j + i), 7 - k) <==> k < i && row[8 * j + k] != 0
    decreases i
  {
    if i == 0 {
      assert Accumulated(row, 8 * j, 8 * j) == 0;
    } else {
      var x := 8 * j + i - 1;
      AccumulatedBits(row, j, i - 1, k);
      BitSetOr(Accumulated(row, 8 * j, x), PixelBit(x, row[x]), 7 - k);
      ColumnInGroup(j, i - 1);
      if 0 < row[x] {
        BitSetSingle(7 - (i - 1), 7 - k);
      } else {
        assert !BitSet(PixelBit(x, row[x]), 7 - k);
      }
    }
  }

  /** Bit k of a group's byte is pixel 8j + k: MSB-first accumulation then reversal puts the first pixel in bit 0. */
  lemma GroupByteBits(row: seq<Luma>, j: nat, k: nat)
    requires 8 * j + 8 <= |row| && k < 8
    ensures BitSet(GroupByte(row, j), k) <==> row[8 * j + k] != 0
  {
    ReverseBitsAt(Accumulated(row, 8 * j, 8 * j + 8), k);
    AccumulatedBits(row, j, 8, k);
  }

  /** The complete groups among the first n columns: n / 8 of them, and one more for n + 1 exactly when column n ends a group. */
  lemma GroupCount(n: nat)
    requires n > 0
    ensures (n - 1) % 8 == 7 ==> n / 8 == (n - 1) / 8 + 1 && 8 * ((n - 1) / 8) + 8 == n
    ensures (n - 1) % 8 != 7 ==> n / 8 == (n - 1) / 8
    ensures 8 * (n / 8) <= n
  {
  }

  /** The bytes the first n pixels of a row push when they start from a reset accumulator: one per complete group. */
  function RowBytes(row: seq<Luma>, n: nat): (bytes: seq<bv8>)
    requires n <= |row|
    ensures |bytes| == n / 8
  {
    seq(n / 8, j requires 0 <= j < n / 8 => GroupByte(row, j))
  }

  /** The group bytes of the first n rows, in row order, each row walked from a reset accumulator (the output when w % 8 == 0). */
  function RowsBytes(rows: Image, n: nat): seq<bv8>
    requires n <= |rows|
  {
    if n == 0 then [] else RowsBytes(rows, n - 1) + RowBytes(rows[n - 1], |rows[n - 1]|)
  }

  /** One more pixel adds a group byte exactly when that pixel completes a group. */
  lemma RowBytesSnoc(row: seq<Luma>, n: nat)
    requires 0 < n <= |row|
    ensures RowBytes(row, n) == RowBytes(row, n - 1) +
      (if (n - 1) % 8 == 7 then [GroupByte(row, (n - 1) / 8)] else [])
  {
    GroupCount(n);
  }

  /** The pixel that completes group m pushes that group's byte and resets the accumulator. */
  lemma PackRowGroupsFlush(p: Packer, row: seq<Luma>, m: nat)
    requires 8 * m + 8 <= |row|
    requires PackRowTo(p, row, 8 * m + 7).acc == Accumulated(row, 8 * m, 8 * m + 7)
    ensures PackRowTo(p, row, 8 * m + 8) == Packer(0, PackRowTo(p, row, 8 * m + 7).data + [GroupByte(row, m)])
  {
    ColumnInGroup(m, 7);
    LegacyFlushRedundant(8 * m + 7);
  }

  /** A pixel at offset i < 7 inside group m only ORs its bit into the accumulator. */
  lemma PackRowGroupsInside(p: Packer, row: seq<Luma>, m: nat, i: nat)
    requires i < 7 && 8 * m + i + 1 <= |row|
    requires PackRowTo(p, row, 8 * m + i).acc == Accumulated(row, 8 * m, 8 * m + i)
    ensures PackRowTo(p, row, 8 * m + i + 1) == Packer(Accumulated(row, 8 * m, 8 * m + i + 1), PackRowTo(p, row, 8 * m + i).data)
  {
    ColumnInGroup(m, i);
    LegacyFlushRedundant(8 * m + i);
  }

  /** Starting from a reset accumulator, a row pushes its group bytes and keeps the columns after the last group in the accumulator. */
  lemma {:induction false} PackRowGroups(p: Packer, row: seq<Luma>, m: nat, i: nat)
    requires p.acc == 0 && i < 8 && 8 * m + i <= |row|
    ensures PackRowTo(p, row, 8 * m + i) == Packer(Accumulated(row, 8 * m, 8 * m + i), p.data + RowBytes(row, 8 * m + i))
    decreases 8 * m + i
  {
    if m == 0 && i == 0 {
      assert RowBytes(row, 0) == [];
    } else if i == 0 {
      var k := m - 1;
      assert 8 * k + 8 == 8 * m;
      PackRowGroups(p, row, k, 7);
      PackRowGroupsFlush(p, row, k);
      RowBytesSnoc(row, 8 * k + 8);
      ColumnInGroup(k, 7);
      assert RowBytes(row, 8 * m) == RowBytes(row, 8 * k + 7) + [GroupByte(row, k)];
      assert Accumulated(row, 8 * m, 8 * m) == 0;
      ConcatAssoc(p.data, RowBytes(row, 8 * k + 7), [GroupByte(row, k)]);
    } else {
      var k := i - 1;
      PackRowGroups(p, row, m, k);
      PackRowGroupsInside(p, row, m, k);
      RowBytesSnoc(row, 8 * m + i);
      ColumnInGroup(m, k);
      assert RowBytes(row, 8 * m + i) == RowBytes(row, 8 * m + k);
    }
  }

  /** With width w a multiple of 8, every row starts from a reset accumulator. */
  lemma {:induction false} PackRowsGroups(p: Packer, rows: Image, n: nat, w: nat)
    requires p.acc == 0 && w % 8 == 0
    requires n <= |rows| && IsCanvas(rows, w, |rows|)
    ensures PackRowsTo(p, rows, n) == Packer(0, p.data + RowsBytes(rows, n))
    decreases n
  {
    if n > 0 {
      PackRowsGroups(p, rows, n - 1, w);
      var c := WholeGroups(w);
      var last := rows[n - 1];
      assert |last| == 8 * c + 0;
      var q := PackRowsTo(p, rows, n - 1);
      PackRowGroups(q, last, c, 0);
      assert Accumulated(last, 8 * c, |last|) == 0;
      ConcatAssoc(p.data, RowsBytes(rows, n - 1), RowBytes(last, |last|));
    }
  }

  lemma ConcatAssoc(a: seq<bv8>, b: seq<bv8>, c: seq<bv8>)
    ensures a + b + c == a + (b + c)
  {
  }

  /** A width that is a multiple of 8 is exactly c groups of 8. */
  lemma WholeGroups(w: nat) returns (c: nat)
    requires w % 8 == 0
    ensures w == 8 * c && c == w / 8
  {
    c := w / 8;
  }

  lemma IndexInRows(r: nat, j: nat, c: nat, h: nat)
    requires r < h && j < c
    ensures r * c + j < h * c
    ensures (h - 1) * c + c == h * c
  {
    assert (r + 1) * c == r * c + c;
    assert (h - 1) * c + c == h * c;
    MulMonotone(r + 1, h, c);
  }

  lemma {:induction false} MulMonotone(a: nat, b: nat, c: nat)
    requires a <= b
    ensures a * c <= b * c
    decreases b - a
  {
    if a < b {
      MulMonotone(a + 1, b, c);
      assert (a + 1) * c == a * c + c;
    }
  }

  /** The first n rows of a canvas of width w give n * (w / 8) bytes. */
  lemma {:induction false} RowsBytesLength(rows: Image, w: nat, n: nat)
    requires n <= |rows| && IsCanvas(rows, w, |rows|)
    ensures |RowsBytes(rows, n)| == n * (w / 8)
    decreases n
  {
    if n > 0 {
      RowsBytesLength(rows, w, n - 1);
      MulSucc(n - 1, w / 8);
    }
  }

  /** Row r of a canvas of width w occupies bytes r * (w / 8) .. r * (w / 8) + w / 8 - 1 of the rows' bytes. */
  lemma {:induction false} RowsBytesAt(rows: Image, w: nat, n: nat, r: nat, j: nat)
    requires n <= |rows| && IsCanvas(rows, w, |rows|)
    requires r < n && j < w / 8
    ensures |RowsBytes(rows, n)| == n * (w / 8)
    ensures r * (w / 8) + j < |RowsBytes(rows, n)| && RowsBytes(rows, n)[r * (w / 8) + j] == GroupByte(rows[r], j)
    decreases n
  {
    var c := w / 8;
    RowsBytesLength(rows, w, n);
    RowsBytesLength(rows, w, n - 1);
    IndexInRows(r, j, c, n);
    if r < n - 1 {
      RowsBytesAt(rows, w, n - 1, r, j);
    }
  }

  /**
   * The layout theorem: for a w x h canvas with w a multiple of 8, bit k
   * (bit 0 least significant) of output byte r * (w / 8) + j is set exactly
   * when pixel (8j + k, r) is non-zero.
   */
  lemma PackLayout(img: Image, w: nat, h: nat, r: nat, j: nat, k: nat)
    requires IsCanvas(img, w, h) && w % 8 == 0
    requires r < h && j < w / 8 && k < 8
    ensures |Pack(img)| == h * (w / 8)
    ensures r * (w / 8) + j < |Pack(img)|
    ensures BitSet(Pack(img)[r * (w / 8) + j], k) <==> img[r][8 * j + k] != 0
  {
    PackRowsGroups(Initial, img, h, w);
    RowsBytesAt(img, w, h, r, j);
    assert 8 * j + 8 <= w;
    GroupByteBits(img[r], j, k);
  }

  /**
   * When the width is not a multiple of 8 the accumulator is not reset at the
   * end of a row: on a 9 x 2 canvas the ninth pixel of row 0 lands in the byte
   * pushed at column 7 of row 1, and the ninth pixel of row 1, though set, is
   * never pushed.
   */
  lemma CarryOverExample()
    ensures Pack([[0, 0, 0, 0, 0, 0, 0, 0, 255], [0, 0, 0, 0, 0, 0, 0, 0, 255]]) == [0x00, 0x01]
  {
    var img: Image := [[0, 0, 0, 0, 0, 0, 0, 0, 255], [0, 0, 0, 0, 0, 0, 0, 0, 255]];
    var top, bottom := img[0], img[1];
    ReverseBitsExamples();
    // row 0: seven zeros, a flush of the empty accumulator at column 7, then bit 7 for column 8
    PackRowZeroPrefix(Initial, top, 7);
    var p1 := Step(Initial, 7, 0);
    assert p1 == Packer(0, [0x00]);
    assert PackRowTo(Initial, top, 8) == p1;
    assert PixelBit(8, 255) == 0x80;
    var r0 := Step(p1, 8, 255);
    assert r0 == Packer(0x80, [0x00]);
    assert PackRowTo(Initial, top, 9) == r0;
    assert PackRowsTo(Initial, img, 1) == PackRow(Initial, top) == r0;
    // row 1: the carried bit is flushed at column 7; column 8 stays in the accumulator
    PackRowZeroPrefix(r0, bottom, 7);
    var q1 := Step(r0, 7, 0);
    assert q1 == Packer(0, [0x00, 0x01]);
    assert PackRowTo(r0, bottom, 8) == q1;
    var q2 := Step(q1, 8, 255);
    assert q2 == Packer(0x80, [0x00, 0x01]);
    assert PackRowTo(r0, bottom, 9) == q2;
    assert PackRowsTo(Initial, img, 2) == PackRow(r0, bottom) == q2;
  }

  // ---------------------------------------------------------------------------
  // Uniform canvases and binarisation
  // ---------------------------------------------------------------------------

  /** Every byte of d equals b. */
  predicate AllBytes(d: seq<bv8>, b: bv8)
  {
    forall i :: 0 <= i < |d| ==> d[i] == b
  }

  /** Zero pixels leave a zero accumulator zero and push only zero bytes. */
  lemma {:induction false} PackRowZero(p: Packer, row: seq<Luma>, n: nat)
    requires n <= |row| && p.acc == 0 && AllBytes(p.data, 0)
    requires forall x :: 0 <= x < |row| ==> row[x] == 0
    ensures PackRowTo(p, row, n).acc == 0 && AllBytes(PackRowTo(p, row, n).data, 0)
    decreases n
  {
    if n > 0 {
      PackRowZero(p, row, n - 1);
      assert PixelBit(n - 1, row[n - 1]) == 0;
      ReverseBitsExamples();
    }
  }

  /** Zero pixels before the first flush column leave the packer as it is. */
  lemma {:induction false} PackRowZeroPrefix(p: Packer, row: seq<Luma>, n: nat)
    requires n <= |row| && n < 8
    requires forall x :: 0 <= x < n ==> row[x] == 0
    ensures PackRowTo(p, row, n) == p
    decreases n
  {
    if n > 0 {
      PackRowZeroPrefix(p, row, n - 1);
      assert PixelBit(n - 1, row[n - 1]) == 0;
      assert p.acc | 0 == p.acc;
    }
  }

  /** An all-zero canvas, of any shape, packs to zero bytes only. */
  lemma PackZero(img: Image)
    requires AllZero(img)
    ensures AllBytes(Pack(img), 0)
  {
    PackRowsZero(img, |img|);
  }

  lemma {:induction false} PackRowsZero(rows: Image, n: nat)
    requires n <= |rows| && AllZero(rows)
    ensures PackRowsTo(Initial, rows, n).acc == 0 && AllBytes(PackRowsTo(Initial, rows, n).data, 0)
    decreases n
  {
    if n > 0 {
      PackRowsZero(rows, n - 1);
      PackRowZero(PackRowsTo(Initial, rows, n - 1), rows[n - 1], |rows[n - 1]|);
    }
  }

  /** A row of ink packs to 0xFF bytes only. */
  lemma RowBytesInk(row: seq<Luma>)
    requires forall x :: 0 <= x < |row| ==> row[x] != 0
    ensures AllBytes(RowBytes(row, |row|), 0xFF)
  {
    forall j | 0 <= j < |row| / 8
      ensures RowBytes(row, |row|)[j] == 0xFF
    {
      forall k | 0 <= k < 8
        ensures BitSet(GroupByte(row, j), k) <==> BitSet(0xFF, k)
      {
        GroupByteBits(row, j, k);
        ReverseBitsAt(0xFF, k);
      }
      BitsDetermineByte(GroupByte(row, j), 0xFF);
    }
  }

  lemma {:induction false} RowsBytesInk(rows: Image, n: nat)
    requires n <= |rows| && AllInk(rows)
    ensures AllBytes(RowsBytes(rows, n), 0xFF)
    decreases n
  {
    if n > 0 {
      RowsBytesInk(rows, n - 1);
      RowBytesInk(rows[n - 1]);
    }
  }

  /** An all-ink canvas whose width is a multiple of 8 packs to h * (w / 8) bytes 0xFF. */
  lemma PackInk(img: Image, w: nat, h: nat)
    requires IsCanvas(img, w, h) && w % 8 == 0 && AllInk(img)
    ensures |Pack(img)| == h * (w / 8) && AllBytes(Pack(img), 0xFF)
  {
    PackLength(img, w, h);
    PackRowsGroups(Initial, img, h, w);
    RowsBytesInk(img, h);
  }

  /** a and b have the same shape and the same zero / non-zero pattern. */
  predicate SameInk(a: Image, b: Image)
  {
    |a| == |b| &&
    forall y :: 0 <= y < |a| ==>
      |a[y]| == |b[y]| && forall x :: 0 <= x < |a[y]| ==> (a[y][x] == 0 <==> b[y][x] == 0)
  }

  lemma {:induction false} PackRowSameInk(p: Packer, a: seq<Luma>, b: seq<Luma>, n: nat)
    requires n <= |a| == |b| && forall x :: 0 <= x < |a| ==> (a[x] == 0 <==> b[x] == 0)
    ensures PackRowTo(p, a, n) == PackRowTo(p, b, n)
    decreases n
  {
    if n > 0 {
      PackRowSameInk(p, a, b, n - 1);
      var q := PackRowTo(p, a, n - 1);
      StepSameInk(q, n - 1, a[n - 1], b[n - 1]);
    }
  }

  /** A pixel's step depends only on whether it is zero. */
  lemma StepSameInk(p: Packer, x: nat, u: Luma, v: Luma)
    requires u == 0 <==> v == 0
    ensures Step(p, x, u) == Step(p, x, v)
  {
    if 0 < u {
      assert 0 < v;
    } else {
      assert v == 0;
    }
  }

  /** Binarisation: the packed bytes depend only on which pixels are zero; any intensity 1 .. 255 counts as on. */
  lemma PackSameInk(a: Image, b: Image)
    requires SameInk(a, b)
    ensures Pack(a) == Pack(b)
  {
    PackRowsSameInk(a, b, |a|);
  }

  lemma {:induction false} PackRowsSameInk(a: Image, b: Image, n: nat)
    requires n <= |a| && SameInk(a, b)
    ensures PackRowsTo(Initial, a, n) == PackRowsTo(Initial, b, n)
    decreases n
  {
    if n > 0 {
      PackRowsSameInk(a, b, n - 1);
      PackRowSameInk(PackRowsTo(Initial, a, n - 1), a[n - 1], b[n - 1], |a[n - 1]|);
    }
  }

  // ---------------------------------------------------------------------------
  // `render_image`: line splitting and stamping
  // ---------------------------------------------------------------------------

  /** Stamps the glyphs of one line of text onto the canvas, given the 1-based line number (font rasterisation). */
  type LineStamp = (Image, string, nat) -> Image

  /** The number of newline characters in s. */
  function NewlineCount(s: string): nat
  {
    if s == [] then 0 else (if s[0] == '\n' then 1 else 0) + NewlineCount(s[1..])
  }

  /** `str::split("\n")`: the pieces between newlines, empty pieces included. */
  function Split(s: string): (pieces: seq<string>)
    ensures |pieces| == NewlineCount(s) + 1
    ensures forall i :: 0 <= i < |pieces| ==> '\n' !in pieces[i]
  {
    if s == [] then [[]]
    else
      var rest := Split(s[1..]);
      if s[0] == '\n' then [[]] + rest else [[s[0]] + rest[0]] + rest[1..]
  }

  /** The pieces put back together with a newline between each two. */
  function Join(pieces: seq<string>): string
    requires pieces != []
  {
    if |pieces| == 1 then pieces[0] else pieces[0] + "\n" + Join(pieces[1..])
  }

  /** Splitting loses nothing: joining the pieces gives back the text. */
  lemma {:induction false} JoinSplit(s: string)
    ensures Join(Split(s)) == s
  {
    if s != [] {
      JoinSplit(s[1..]);
      var rest := Split(s[1..]);
      if s[0] == '\n' {
        assert Split(s)[1..] == rest;
      } else {
        var pieces := Split(s);
        assert pieces[1..] == rest[1..];
        if |rest| > 1 {
          assert rest[1..] != [];
          assert Join(rest) == rest[0] + "\n" + Join(rest[1..]);
        }
      }
    }
  }

  /** Pieces without newlines are recovered exactly by splitting their join. */
  lemma {:induction false} SplitJoin(pieces: seq<string>)
    requires pieces != []
    requires forall i :: 0 <= i < |pieces| ==> '\n' !in pieces[i]
    ensures Split(Join(pieces)) == pieces
    decreases |pieces|, |pieces[0]|
  {
    var p := pieces[0];
    if |pieces| == 1 {
      SplitNoNewline(p);
    } else if p == [] {
      SplitJoin(pieces[1..]);
      assert Join(pieces) == "\n" + Join(pieces[1..]);
      assert Join(pieces)[1..] == Join(pieces[1..]);
    } else {
      var shorter := [p[1..]] + pieces[1..];
      assert '\n' !in p[1..] by { assert forall c :: c in p[1..] ==> c in p; }
      SplitJoin(shorter);
      assert shorter[1..] == pieces[1..];
      assert Join(pieces) == [p[0]] + Join(shorter);
      assert Join(pieces)[1..] == Join(shorter);
      assert [p[0]] + p[1..] == p;
    }
  }

  lemma {:induction false} SplitNoNewline(s: string)
    requires '\n' !in s
    ensures Split(s) == [s]
  {
    if s != [] {
      assert '\n' !in s[1..] by { assert forall c :: c in s[1..] ==> c in s; }
      SplitNoNewline(s[1..]);
      assert [s[0]] + s[1..] == s;
    }
  }

  /** Text made of newlines only (or empty) splits into empty pieces. */
  lemma {:induction false} SplitNewlinesOnly(s: string)
    requires forall i :: 0 <= i < |s| ==> s[i] == '\n'
    ensures forall i :: 0 <= i < |Split(s)| ==> Split(s)[i] == []
  {
    if s != [] {
      SplitNewlinesOnly(s[1..]);
    }
  }

  /** The canvas after `set_line` has been called on the pieces in order, with line numbers 1, 2, 3, ... */
  function StampLines(canvas: Image, pieces: seq<string>, setLine: LineStamp): Image
    decreases |pieces|
  {
    if pieces == [] then canvas
    else setLine(StampLines(canvas, pieces[..|pieces| - 1], setLine), pieces[|pieces| - 1], |pieces|)
  }

  /** The canvas `render_image` produces: a zeroed canvas of the renderer's size, stamped line by line. */
  function RenderedImage(renderer: TextRenderer, text: string, setLine: LineStamp): Image
  {
    StampLines(Blank(renderer.size), Split(text), setLine)
  }

  /** setLine keeps a w x h canvas w x h (`put_pixel` never resizes the buffer). */
  ghost predicate KeepsCanvas(setLine: LineStamp, w: nat, h: nat)
  {
    forall img, line, row :: IsCanvas(img, w, h) ==> IsCanvas(setLine(img, line, row), w, h)
  }

  /** setLine draws nothing for an empty line (an empty line lays out no glyphs). */
  ghost predicate EmptyLineDrawsNothing(setLine: LineStamp)
  {
    forall img, row :: setLine(img, [], row) == img
  }

  lemma {:induction false} StampLinesKeepsCanvas(canvas: Image, pieces: seq<string>, setLine: LineStamp, w: nat, h: nat)
    requires IsCanvas(canvas, w, h) && KeepsCanvas(setLine, w, h)
    ensures IsCanvas(StampLines(canvas, pieces, setLine), w, h)
    decreases |pieces|
  {
    if pieces != [] {
      StampLinesKeepsCanvas(canvas, pieces[..|pieces| - 1], setLine, w, h);
    }
  }

  lemma {:induction false} StampEmptyLines(canvas: Image, pieces: seq<string>, setLine: LineStamp)
    requires EmptyLineDrawsNothing(setLine)
    requires forall i :: 0 <= i < |pieces| ==> pieces[i] == []
    ensures StampLines(canvas, pieces, setLine) == canvas
    decreases |pieces|
  {
    if pieces != [] {
      StampEmptyLines(canvas, pieces[..|pieces| - 1], setLine);
    }
  }

  /** A rendered canvas keeps the renderer's size, so the default renderer always packs to 2250 bytes. */
  lemma RenderedSize(renderer: TextRenderer, text: string, setLine: LineStamp)
    requires KeepsCanvas(setLine, renderer.size.xSize, renderer.size.ySize)
    ensures IsCanvas(RenderedImage(renderer, text, setLine), renderer.size.xSize, renderer.size.ySize)
    ensures |Pack(RenderedImage(renderer, text, setLine))| == renderer.size.ySize * (renderer.size.xSize / 8)
    ensures renderer == DefaultRenderer() ==> |Pack(RenderedImage(renderer, text, setLine))| == 2250
  {
    var w, h := renderer.size.xSize, renderer.size.ySize;
    StampLinesKeepsCanvas(Blank(renderer.size), Split(text), setLine, w, h);
    PackLength(RenderedImage(renderer, text, setLine), w, h);
  }

  /** The empty text, or text of newlines only, renders a blank canvas, which packs to zero bytes only. */
  lemma BlankTextRendersBlank(renderer: TextRenderer, text: string, setLine: LineStamp)
    requires EmptyLineDrawsNothing(setLine)
    requires forall i :: 0 <= i < |text| ==> text[i] == '\n'
    ensures RenderedImage(renderer, text, setLine) == Blank(renderer.size)
    ensures AllBytes(Pack(RenderedImage(renderer, text, setLine)), 0)
    ensures |Pack(RenderedImage(renderer, text, setLine))| == renderer.size.ySize * (renderer.size.xSize / 8)
  {
    SplitNewlinesOnly(text);
    StampEmptyLines(Blank(renderer.size), Split(text), setLine);
    PackZero(Blank(renderer.size));
    PackLength(Blank(renderer.size), renderer.size.xSize, renderer.size.ySize);
  }

  /** `render_image`: split the text on newlines and stamp each piece, in order, onto a zeroed canvas. */
  method RenderImage(renderer: TextRenderer, text: string, setLine: LineStamp) returns (image: Image)
    ensures image == RenderedImage(renderer, text, setLine)
  {
    var pieces := Split(text);
    image := Blank(renderer.size);
    var row := 0;
    while row < |pieces|
      invariant 0 <= row <= |pieces|
      invariant image == StampLines(Blank(renderer.size), pieces[..row], setLine)
    {
      assert pieces[..row + 1][..row] == pieces[..row];
      image := setLine(image, pieces[row], row + 1);
      row := row + 1;
    }
    assert pieces[..row] == pieces;
  }

  /** `render_text`: render the text, then walk the pixels row by row, left to right, packing them into bytes. */
  method RenderText(renderer: TextRenderer, text: string, setLine: LineStamp) returns (data: seq<bv8>)
    ensures data == Pack(RenderedImage(renderer, text, setLine))
  {
    var image := RenderImage(renderer, text, setLine);
    data := [];
    var byte: bv8 := 0;
    var y := 0;
    while y < |image|
      invariant 0 <= y <= |image|
      invariant PackRowsTo(Initial, image, y) == Packer(byte, data)
    {
      var row := image[y];
      ghost var start := Packer(byte, data);
      var x := 0;
      while x < |row|
        invariant 0 <= x <= |row|
        invariant PackRowTo(start, row, x) == Packer(byte, data)
      {
        ghost var before := Packer(byte, data);
        if 0 < row[x] {
          var bitOffset := x % 8;
          byte := byte | ((1 as bv8) << (7 - bitOffset));
          OrShift(before.acc, bitOffset, byte);
        }
        StepUpdate(before, x, row[x], byte);
        if (x + 1) % 8 == 0 || x == LegacyFlushColumn {
          data := data + [ReverseBits(byte)];
          byte := 0;
        }
        x := x + 1;
      }
      y := y + 1;
    }
  }
}
