/** `Image` of image.h and image.cpp: a shared handle on a buffer of RGBA pixels, four
    bytes each, stored row after row. The buffer may be stored bottom row first (the
    order the texture upload needs); pixel coordinates are remapped so that reads and
    writes do not depend on the stored order. Writing to a buffer shared with another
    handle first copies it. */
module Images {
  import opened Integers
  import opened Geometry
  import opened Sequences

  datatype RowOrder = TopToBottom | BottomToTop

  /** `BytesPerPixel`. */
  const BytesPerPixel: nat := 4

  /** The number of bytes in one row of an image `w` pixels wide. */
  function RowSize(w: nat): nat
  {
    BytesPerPixel * w
  }

  /** `a * b`, spelled out as repeated addition so that proofs about row offsets use
      the facts below rather than general nonlinear arithmetic. */
  function Mul(a: nat, b: nat): nat
  {
    if a == 0 then 0 else Mul(a - 1, b) + b
  }

  lemma {:induction false} MulIsProduct(a: nat, b: nat)
    ensures Mul(a, b) == a * b
  {
    if a > 0 {
      MulIsProduct(a - 1, b);
      assert (a - 1) * b + b == a * b;
    }
  }

  /** A smaller multiple ends, one more `b` later, no later than a larger one. */
  lemma {:induction false} MulMonotone(a1: nat, a2: nat, b: nat)
    requires a1 < a2
    ensures Mul(a1, b) + b <= Mul(a2, b)
  {
    if a1 + 1 < a2 {
      MulMonotone(a1, a2 - 1, b);
    }
  }

  /** Every index below `Mul(h, b)` lies in exactly one block of `b`. */
  lemma {:induction false} MulSplit(k: nat, h: nat, b: nat) returns (r: nat, i: nat)
    requires k < Mul(h, b)
    ensures r < h && i < b && k == Mul(r, b) + i
  {
    if k < Mul(h - 1, b) {
      r, i := MulSplit(k, h - 1, b);
    } else {
      r, i := h - 1, k - Mul(h - 1, b);
    }
  }

  /** The number of bytes of a `w` by `h` image. */
  function BufferSize(w: nat, h: nat): nat
  {
    Mul(h, RowSize(w))
  }

  /** The index of the first byte of row `r`. */
  function RowStart(r: nat, w: nat): nat
  {
    Mul(r, RowSize(w))
  }

  /** The bytes of row `r`; empty when the buffer is too short to hold that row. */
  function Row(b: seq<u8>, w: nat, r: nat): seq<u8>
  {
    if RowStart(r, w) + RowSize(w) <= |b| then b[RowStart(r, w) .. RowStart(r, w) + RowSize(w)] else []
  }

  /** The index of the first byte of pixel `(x, y)`: `4 * (x + y * w)`. */
  function PixelIndex(x: nat, y: nat, w: nat): nat
  {
    BytesPerPixel * (x + y * w)
  }

  lemma RowFits(y: nat, w: nat, h: nat)
    requires y < h
    ensures RowStart(y, w) + RowSize(w) <= BufferSize(w, h)
  {
    MulMonotone(y, h, RowSize(w));
  }

  /** Distinct rows share no byte. */
  lemma RowsDisjoint(r1: nat, r2: nat, w: nat)
    requires r1 < r2
    ensures RowStart(r1, w) + RowSize(w) <= RowStart(r2, w)
  {
    MulMonotone(r1, r2, RowSize(w));
  }

  /** A pixel inside the image lies inside the buffer, at byte `4 * x` of its row. */
  lemma PixelFits(x: nat, y: nat, w: nat, h: nat)
    requires x < w && y < h
    ensures PixelIndex(x, y, w) == RowStart(y, w) + BytesPerPixel * x
    ensures PixelIndex(x, y, w) + BytesPerPixel <= RowStart(y, w) + RowSize(w) <= BufferSize(w, h)
  {
    MulIsProduct(y, RowSize(w));
    assert y * (BytesPerPixel * w) == BytesPerPixel * (y * w);
    RowFits(y, w, h);
  }

  /** The four bytes of pixel `(x, y)` are bytes `4 * x` to `4 * x + 3` of row `y`. */
  lemma PixelInRow(b: seq<u8>, w: nat, h: nat, x: nat, y: nat)
    requires |b| == BufferSize(w, h) && x < w && y < h
    ensures PixelIndex(x, y, w) + BytesPerPixel <= |b|
    ensures |Row(b, w, y)| == RowSize(w)
    ensures b[PixelIndex(x, y, w) .. PixelIndex(x, y, w) + BytesPerPixel]
         == Row(b, w, y)[BytesPerPixel * x .. BytesPerPixel * x + BytesPerPixel]
  {
    PixelFits(x, y, w, h);
    var s := RowStart(y, w);
    SliceOfSlice(b, s, s + RowSize(w), BytesPerPixel * x, BytesPerPixel * x + BytesPerPixel);
  }

  /** The row where logical row `y` is stored: `y`, or `h - y - 1` computed in
      `unsigned` and converted back to `int` when the buffer is stored bottom row first. */
  function StoredRow(y: i32, h: u32, order: RowOrder): i32
  {
    if order == TopToBottom then y
    else ToSigned((h - y - 1) % 0x1_0000_0000, 0x1_0000_0000)
  }

  function OtherOrder(order: RowOrder): RowOrder
  {
    if order == TopToBottom then BottomToTop else TopToBottom
  }

  /** Whether `(x, y)` names a pixel of a `w` by `h` image stored in `order`. */
  predicate InImage(w: u32, h: u32, order: RowOrder, x: i32, y: i32)
  {
    var sy := StoredRow(y, h, order);
    0 <= sy < h && 0 <= x < w
  }

  /** The colour stored in the four bytes of column `x` of stored row `r`. */
  function StoredPixel(b: seq<u8>, w: nat, h: nat, x: nat, r: nat): Color
    requires |b| == BufferSize(w, h) && x < w && r < h
  {
    PixelFits(x, r, w, h);
    BytesToColor(b[PixelIndex(x, r, w) .. PixelIndex(x, r, w) + BytesPerPixel])
  }

  /** The buffer with the four bytes of column `x` of stored row `r` replaced. */
  function WriteStored(b: seq<u8>, w: nat, h: nat, x: nat, r: nat, pixel: seq<u8>): (b': seq<u8>)
    requires |b| == BufferSize(w, h) && x < w && r < h && |pixel| == BytesPerPixel
    ensures |b'| == |b|
  {
    PixelFits(x, r, w, h);
    var i := PixelIndex(x, r, w);
    b[..i] + pixel + b[i + BytesPerPixel..]
  }

  /** `getPixel(x, y)` on a buffer: `Color()` out of range, otherwise the colour read
      from the four bytes of the pixel. */
  function PixelOf(b: seq<u8>, w: u32, h: u32, order: RowOrder, x: i32, y: i32): Color
    requires |b| == BufferSize(w, h)
  {
    if !InImage(w, h, order, x, y) then Black
    else StoredPixel(b, w, h, x, StoredRow(y, h, order))
  }

  /** The buffer after `setPixel(x, y, c)` stores the bytes `pixel`; unchanged out of
      range. */
  function WritePixel(b: seq<u8>, w: u32, h: u32, order: RowOrder, x: i32, y: i32, pixel: seq<u8>): (b': seq<u8>)
    requires |b| == BufferSize(w, h) && |pixel| == BytesPerPixel
    ensures |b'| == |b|
  {
    if !InImage(w, h, order, x, y) then b
    else WriteStored(b, w, h, x, StoredRow(y, h, order), pixel)
  }

  /** Reading a pixel just written gives the colour of the written bytes. */
  lemma ReadAfterWrite(b: seq<u8>, w: u32, h: u32, order: RowOrder, x: i32, y: i32, pixel: seq<u8>)
    requires |b| == BufferSize(w, h) && |pixel| == BytesPerPixel
    requires InImage(w, h, order, x, y)
    ensures PixelOf(WritePixel(b, w, h, order, x, y, pixel), w, h, order, x, y) == BytesToColor(pixel)
  {
    var sy := StoredRow(y, h, order);
    PixelFits(x, sy, w, h);
    Spliced(b, PixelIndex(x, sy, w), pixel, 0, 0);
  }

  /** Writing a pixel keeps the colour of every pixel stored elsewhere. */
  lemma WriteKeepsOthers(b: seq<u8>, w: u32, h: u32, order: RowOrder, x: i32, y: i32, pixel: seq<u8>, x': i32, y': i32)
    requires |b| == BufferSize(w, h) && |pixel| == BytesPerPixel
    requires x' != x || StoredRow(y', h, order) != StoredRow(y, h, order)
    ensures PixelOf(WritePixel(b, w, h, order, x, y, pixel), w, h, order, x', y') == PixelOf(b, w, h, order, x', y')
  {
    if InImage(w, h, order, x, y) && InImage(w, h, order, x', y') {
      StoredWriteKeepsOthers(b, w, h, x, StoredRow(y, h, order), pixel, x', StoredRow(y', h, order));
    }
  }

  lemma StoredWriteKeepsOthers(b: seq<u8>, w: nat, h: nat, x: nat, r: nat, pixel: seq<u8>, x': nat, r': nat)
    requires |b| == BufferSize(w, h) && x < w && r < h && x' < w && r' < h && |pixel| == BytesPerPixel
    requires x' != x || r' != r
    ensures StoredPixel(WriteStored(b, w, h, x, r, pixel), w, h, x', r') == StoredPixel(b, w, h, x', r')
  {
    PixelFits(x, r, w, h);
    PixelFits(x', r', w, h);
    if r < r' {
      RowsDisjoint(r, r', w);
    } else if r' < r {
      RowsDisjoint(r', r, w);
    }
    Spliced(b, PixelIndex(x, r, w), pixel, PixelIndex(x', r', w), BytesPerPixel);
  }

  /** Overwriting the bytes at `i` with `p` puts `p` there and keeps every range that
      does not overlap it. */
  lemma Spliced(b: seq<u8>, i: nat, p: seq<u8>, j: nat, n: nat)
    requires i + |p| <= |b| && j + n <= |b| && (j + n <= i || i + |p| <= j)
    ensures (b[..i] + p + b[i + |p|..])[i .. i + |p|] == p
    ensures (b[..i] + p + b[i + |p|..])[j .. j + n] == b[j .. j + n]
  {
    var b' := b[..i] + p + b[i + |p|..];
    assert b'[i .. i + |p|] == p;
    assert forall k :: j <= k < j + n ==> b'[k] == b[k];
  }

  /** Bottom-to-top storage is a reflection of the rows for every image of at most
      2^31 rows: in-range rows map to in-range rows, `y` to `h - 1 - y`, and rows out of
      range stay out of range. */
  lemma {:induction false} StoredRowReflects(y: i32, h: u32)
    requires h <= 0x8000_0000
    ensures 0 <= y < h <==> 0 <= StoredRow(y, h, BottomToTop) < h
    ensures 0 <= y < h ==> StoredRow(y, h, BottomToTop) == h - 1 - y
  {
    var u := (h - y - 1) % 0x1_0000_0000;
    if y < h {
      assert u == h - y - 1;
    } else {
      DivUnique(h - y - 1, -1, h - y - 1 + 0x1_0000_0000, 0x1_0000_0000);
    }
  }

  /** The first pair of rows the loop of `setRowOrder` exchanges as written: `y1 = 0`
      and `y2 = h - 1`, computed in `unsigned`. */
  function FirstRowPairAsWritten(h: u32): (pair: (u32, u32))
    ensures pair.0 == 0
    ensures h >= 1 ==> pair.1 == h - 1
    ensures h == 0 ==> pair.1 == 0xFFFF_FFFF
  {
    (0, (h - 1) % 0x1_0000_0000)
  }

  /** On an image without rows the loop as written still runs, and its first exchange
      touches a row past the end of the buffer whenever the image has a column. */
  lemma EmptyImageSwapOutOfRange(w: u32)
    requires w >= 1
    ensures var pair := FirstRowPairAsWritten(0);
      pair.0 < pair.1 && RowStart(pair.1, w) + RowSize(w) > BufferSize(w, 0)
  {
  }

  /** `b` holds the rows of `a` in reverse order. */
  ghost predicate ReversedRows(a: seq<u8>, b: seq<u8>, w: nat, h: nat)
  {
    |a| == |b| == BufferSize(w, h) &&
    forall r: nat :: r < h ==> Row(b, w, r) == Row(a, w, h - 1 - r)
  }

  /** Reversing the rows twice gives the buffer back. */
  lemma {:induction false} ReversedRowsTwice(a: seq<u8>, b: seq<u8>, c: seq<u8>, w: nat, h: nat)
    requires ReversedRows(a, b, w, h) && ReversedRows(b, c, w, h)
    ensures c == a
  {
    forall r: nat | r < h
      ensures Row(c, w, r) == Row(a, w, r)
    {
      assert Row(c, w, r) == Row(b, w, h - 1 - r);
    }
    SameRows(a, c, w, h);
  }

  /** Two buffers of `h` rows with the same rows are equal. */
  lemma SameRows(a: seq<u8>, b: seq<u8>, w: nat, h: nat)
    requires |a| == |b| == BufferSize(w, h)
    requires forall r: nat :: r < h ==> Row(b, w, r) == Row(a, w, r)
    ensures a == b
  {
    forall k | 0 <= k < |a|
      ensures a[k] == b[k]
    {
      var r, i := MulSplit(k, h, RowSize(w));
      RowFits(r, w, h);
      assert Row(a, w, r)[i] == a[k] && Row(b, w, r)[i] == b[k];
    }
  }

  /** Reading a pixel gives the same colour whichever order the rows are stored in. */
  lemma {:induction false} FlipKeepsPixels(a: seq<u8>, b: seq<u8>, w: u32, h: u32, order: RowOrder, x: i32, y: i32)
    requires ReversedRows(a, b, w, h) && h <= 0x8000_0000
    ensures PixelOf(b, w, h, OtherOrder(order), x, y) == PixelOf(a, w, h, order, x, y)
  {
    StoredRowReflects(y, h);
    var s := StoredRow(y, h, order);
    var s' := StoredRow(y, h, OtherOrder(order));
    if 0 <= s < h && 0 <= x < w {
      assert s' == h - 1 - s;
      PixelInRow(a, w, h, x, s);
      PixelInRow(b, w, h, x, s');
      assert Row(b, w, s') == Row(a, w, s);
    }
  }

  /** Every pixel of an all-zero buffer reads as `Color()`. */
  lemma BlankPixels(b: seq<u8>, w: u32, h: u32, order: RowOrder, x: i32, y: i32)
    requires |b| == BufferSize(w, h) && forall k :: 0 <= k < |b| ==> b[k] == 0
    ensures PixelOf(b, w, h, order, x, y) == Black
  {
    if InImage(w, h, order, x, y) {
      var sy := StoredRow(y, h, order);
      PixelFits(x, sy, w, h);
      var i := PixelIndex(x, sy, w);
      assert b[i .. i + BytesPerPixel] == [0, 0, 0, 0];
    }
  }

  /** `b` is `a` with the `n` bytes at `i1` and the `n` bytes at `i2` exchanged. */
  ghost predicate Swapped(a: seq<u8>, b: seq<u8>, i1: nat, i2: nat, n: nat)
  {
    |a| == |b| && i1 + n <= |a| && i2 + n <= |a| &&
    b[i1 .. i1 + n] == a[i2 .. i2 + n] && b[i2 .. i2 + n] == a[i1 .. i1 + n] &&
    forall k :: 0 <= k < |a| && !(i1 <= k < i1 + n) && !(i2 <= k < i2 + n) ==> b[k] == a[k]
  }

  /** Exchanging two ranges byte by byte exchanges them as slices. */
  lemma SwappedBytes(a: seq<u8>, b: seq<u8>, i1: nat, i2: nat, n: nat)
    requires |a| == |b| && i1 + n <= |a| && i2 + n <= |a|
    requires forall k :: i1 <= k < i1 + n ==> b[k] == a[k - i1 + i2]
    requires forall k :: i2 <= k < i2 + n ==> b[k] == a[k - i2 + i1]
    requires forall k :: 0 <= k < |a| && !(i1 <= k < i1 + n) && !(i2 <= k < i2 + n) ==> b[k] == a[k]
    ensures Swapped(a, b, i1, i2, n)
  {
    assert b[i1 .. i1 + n] == a[i2 .. i2 + n];
    assert b[i2 .. i2 + n] == a[i1 .. i1 + n];
  }

  /** The row that moved to `to` in an exchange is the row that was at `from`. */
  lemma SwappedRow(a: seq<u8>, b: seq<u8>, w: nat, h: nat, from: nat, to: nat)
    requires |a| == BufferSize(w, h) && from < h && to < h
    requires Swapped(a, b, RowStart(from, w), RowStart(to, w), RowSize(w)) || Swapped(a, b, RowStart(to, w), RowStart(from, w), RowSize(w))
    ensures Row(b, w, to) == Row(a, w, from)
  {
    RowFits(from, w, h);
    RowFits(to, w, h);
  }

  /** A row other than the two exchanged ones keeps its bytes. */
  lemma KeptRow(a: seq<u8>, b: seq<u8>, w: nat, h: nat, y1: nat, y2: nat, r: nat)
    requires |a| == BufferSize(w, h) && y1 < h && y2 < h && r < h && r != y1 && r != y2
    requires Swapped(a, b, RowStart(y1, w), RowStart(y2, w), RowSize(w))
    ensures Row(b, w, r) == Row(a, w, r)
  {
    var R, s := RowSize(w), RowStart(r, w);
    RowFits(r, w, h);
    if r < y1 { RowsDisjoint(r, y1, w); } else { RowsDisjoint(y1, r, w); }
    if r < y2 { RowsDisjoint(r, y2, w); } else { RowsDisjoint(y2, r, w); }
    forall k | s <= k < s + R
      ensures b[k] == a[k]
    {
    }
    assert b[s .. s + R] == a[s .. s + R];
  }

  /** Rows outside `lo .. hi` have been exchanged with their mirror rows; the rows
      between are as in `a`. */
  ghost predicate PartlyReversed(a: seq<u8>, b: seq<u8>, w: nat, h: nat, lo: int, hi: int)
  {
    |a| == |b| == BufferSize(w, h) &&
    forall r: nat :: r < h ==> Row(b, w, r) == Row(a, w, if r < lo || r > hi then h - 1 - r else r)
  }

  /** `after` is `before` with rows `y1` and `y2` exchanged. */
  ghost predicate RowsExchanged(before: seq<u8>, after: seq<u8>, w: nat, h: nat, y1: nat, y2: nat)
  {
    |before| == |after| == BufferSize(w, h) &&
    Row(after, w, y1) == Row(before, w, y2) && Row(after, w, y2) == Row(before, w, y1) &&
    forall r: nat :: r < h && r != y1 && r != y2 ==> Row(after, w, r) == Row(before, w, r)
  }

  /** Exchanging the bytes of two rows exchanges the rows and keeps all others. */
  lemma ExchangedRows(before: seq<u8>, after: seq<u8>, w: nat, h: nat, y1: nat, y2: nat)
    requires |before| == BufferSize(w, h) && y1 < h && y2 < h
    requires Swapped(before, after, RowStart(y1, w), RowStart(y2, w), RowSize(w))
    ensures RowsExchanged(before, after, w, h, y1, y2)
  {
    SwappedRow(before, after, w, h, y2, y1);
    SwappedRow(before, after, w, h, y1, y2);
    forall r: nat | r < h && r != y1 && r != y2
      ensures Row(after, w, r) == Row(before, w, r)
    {
      KeptRow(before, after, w, h, y1, y2, r);
    }
  }

  /** Exchanging the two rows `lo` and `hi` of a partly reversed buffer extends the
      reversed part by one row at each end. */
  lemma SwapStep(a: seq<u8>, before: seq<u8>, after: seq<u8>, w: nat, h: nat, lo: nat, hi: nat)
    requires lo < hi < h && lo + hi == h - 1
    requires PartlyReversed(a, before, w, h, lo, hi)
    requires RowsExchanged(before, after, w, h, lo, hi)
    ensures PartlyReversed(a, after, w, h, lo + 1, hi - 1)
  {
    forall r: nat | r < h
      ensures Row(after, w, r) == Row(a, w, if r < lo + 1 || r > hi - 1 then h - 1 - r else r)
    {
      if r == lo {
        assert Row(after, w, r) == Row(before, w, hi) == Row(a, w, hi);
      } else if r == hi {
        assert Row(after, w, r) == Row(before, w, lo) == Row(a, w, lo);
      } else {
        assert Row(after, w, r) == Row(before, w, r);
      }
    }
  }

  /** A partly reversed buffer whose middle is at most one row is reversed. */
  lemma Reversed(a: seq<u8>, b: seq<u8>, w: nat, h: nat, lo: int, hi: int)
    requires PartlyReversed(a, b, w, h, lo, hi) && lo + hi == h - 1 && lo >= hi
    ensures ReversedRows(a, b, w, h)
  {
  }

  /** The byte loop of `swapRows`: exchanges the `n` bytes at `i1` with the `n` bytes
      at `i2`, one pair at a time. */
  method SwapRanges(bytes: array<u8>, i1: nat, i2: nat, n: nat)
    requires i1 + n <= bytes.Length && i2 + n <= bytes.Length
    requires i1 == i2 || i1 + n <= i2 || i2 + n <= i1
    modifies bytes
    ensures Swapped(old(bytes[..]), bytes[..], i1, i2, n)
  {
    for i := 0 to n
      invariant forall k :: i1 <= k < i1 + i ==> bytes[k] == old(bytes[k - i1 + i2])
      invariant forall k :: i2 <= k < i2 + i ==> bytes[k] == old(bytes[k - i2 + i1])
      invariant forall k :: 0 <= k < bytes.Length && !(i1 <= k < i1 + i) && !(i2 <= k < i2 + i) ==> bytes[k] == old(bytes[k])
    {
      var t := bytes[i1 + i];
      bytes[i1 + i] := bytes[i2 + i];
      bytes[i2 + i] := t;
    }
    SwappedBytes(old(bytes[..]), bytes[..], i1, i2, n);
  }

  /** `data_t`: the pixel bytes, the size, the stored row order and the texture cache
      flag. `useCount` is the number of handles sharing the buffer (the
      `shared_ptr` use count). */
  class ImageData {
    const bytes: array<u8>
    const w: u32
    const h: u32
    var rowOrder: RowOrder
    var textureValid: bool
    var useCount: nat

    ghost predicate Valid()
      reads this
    {
      bytes.Length == BufferSize(w, h) && useCount >= 1
    }

    /** `data_t(data, w, h, rowOrder)`. */
    constructor(bytes: array<u8>, w: u32, h: u32, rowOrder: RowOrder)
      requires bytes.Length == BufferSize(w, h)
      ensures Valid() && this.bytes == bytes && this.w == w && this.h == h
      ensures this.rowOrder == rowOrder && !textureValid && useCount == 1
    {
      this.bytes := bytes;
      this.w := w;
      this.h := h;
      this.rowOrder := rowOrder;
      textureValid := false;
      useCount := 1;
    }

    /** `data_t(data, rt)`: `rt`'s size and row order over a new buffer. */
    constructor Like(bytes: array<u8>, rt: ImageData)
      requires bytes.Length == BufferSize(rt.w, rt.h)
      ensures Valid() && this.bytes == bytes && w == rt.w && h == rt.h
      ensures rowOrder == rt.rowOrder && !textureValid && useCount == 1
    {
      this.bytes := bytes;
      w := rt.w;
      h := rt.h;
      rowOrder := rt.rowOrder;
      textureValid := false;
      useCount := 1;
    }
  }

  /** A handle; `null` is the empty image. Mesh textures hold handles and compare them
      by the buffer they share. */
  type ImageHandle = ImageData?

  class Image {
    var data: ImageHandle

    ghost predicate Valid()
      reads this, data
    {
      data != null ==> data.Valid()
    }

    /** The objects a write through this handle may change. */
    ghost function Repr(): set<object>
      reads this
    {
      if data == null then {this} else {this, data, data.bytes}
    }

    /** `Image()`: the empty image. */
    constructor Empty()
      ensures Valid() && data == null
    {
      data := null;
    }

    /** `Image(w, h)`: `4 * w * h` zero bytes, stored top row first. */
    constructor(w: u32, h: u32)
      ensures Valid() && data != null && fresh(data) && fresh(data.bytes)
      ensures data.w == w && data.h == h && data.rowOrder == TopToBottom && !data.textureValid
      ensures data.bytes.Length == BytesPerPixel * w * h
      ensures forall k :: 0 <= k < data.bytes.Length ==> data.bytes[k] == 0
    {
      MulIsProduct(h, RowSize(w));
      var bytes := new u8[BytesPerPixel * w * h](_ => 0);
      data := new ImageData(bytes, w, h, TopToBottom);
    }

    /** `Image(c)`: a one-pixel image of colour `c`. */
    constructor FromColor(c: Color)
      ensures Valid() && data != null && fresh(data) && fresh(data.bytes)
      ensures data.w == 1 && data.h == 1 && data.rowOrder == TopToBottom && data.useCount == 1
      ensures data.bytes[..] == ColorToBytes(c)
      ensures GetPixel(0, 0) == BytesToColor(ColorToBytes(c))
    {
      var bytes := new u8[BytesPerPixel];
      data := new ImageData(bytes, 1, 1, TopToBottom);
      new;
      ghost var blank := bytes[..];
      SetPixel(0, 0, c);
      assert data.bytes[..] == ColorToBytes(c) by {
        assert WritePixel(blank, 1, 1, TopToBottom, 0, 0, ColorToBytes(c)) == [] + ColorToBytes(c) + [];
      }
      ReadAfterWrite(blank, 1, 1, TopToBottom, 0, 0, ColorToBytes(c));
    }

    /** `operator bool`: whether the handle holds a buffer. */
    predicate IsSome()
      reads this
    {
      data != null
    }

    /** `width()` and `height()`. */
    function Width(): u32
      requires data != null
      reads this, data
    {
      data.w
    }

    function Height(): u32
      requires data != null
      reads this, data
    {
      data.h
    }

    /** `operator ==`: two handles are equal when they share a buffer. */
    predicate SameAs(r: Image)
      reads this, r
    {
      data == r.data
    }

    /** The implicit copy: a second handle sharing the buffer. */
    method Share() returns (copy: Image)
      requires Valid()
      modifies data
      ensures fresh(copy) && copy.data == data && Valid() && copy.Valid()
      ensures data != null ==> data.useCount == old(data.useCount) + 1
    {
      copy := new Image.Empty();
      copy.data := data;
      if data != null {
        data.useCount := data.useCount + 1;
      }
    }

    /** `getPixel(x, y)`. */
    function GetPixel(x: i32, y: i32): (c: Color)
      requires Valid()
      reads this, data, (if data == null then {} else {data.bytes})
      ensures data == null ==> c == Black
      ensures data != null ==> c == PixelOf(data.bytes[..], data.w, data.h, data.rowOrder, x, y)
    {
      if data == null then Black else PixelOf(data.bytes[..], data.w, data.h, data.rowOrder, x, y)
    }

    /** `copyOnWrite()`: a buffer shared with another handle is replaced by a private
        copy holding the same bytes; the other handles keep the original. */
    method CopyOnWrite()
      requires Valid() && data != null
      modifies this, data
      ensures Valid() && data != null && data.bytes[..] == old(data.bytes[..])
      ensures data.w == old(data.w) && data.h == old(data.h) && data.rowOrder == old(data.rowOrder)
      ensures old(data.useCount) == 1 ==> data == old(data) && unchanged(data)
      ensures old(data.useCount) > 1 ==>
        fresh(data) && fresh(data.bytes) && data.useCount == 1 && !data.textureValid &&
        old(data).useCount == old(data.useCount) - 1
    {
      if data.useCount == 1 {
        return;
      }
      var shared := data;
      var n := data.bytes.Length;
      var copied := new u8[n];
      for i := 0 to n
        invariant copied[..i] == data.bytes[..i]
        modifies copied
      {
        copied[i] := data.bytes[i];
      }
      assert copied[..] == data.bytes[..n];
      var newData := new ImageData.Like(copied, data);
      shared.useCount := shared.useCount - 1;
      data := newData;
    }

    /** `setPixel(x, y, c)`: nothing on the empty image or outside the image;
        otherwise the buffer is made private and the pixel's four bytes become the
        colour's, invalidating the uploaded texture. */
    method SetPixel(x: i32, y: i32, c: Color)
      requires Valid()
      modifies Repr()
      ensures Valid()
      ensures old(data) == null ==> data == null
      ensures old(data) != null && !old(InImage(data.w, data.h, data.rowOrder, x, y)) ==>
        data == old(data) && unchanged(data) && unchanged(data.bytes)
      ensures old(data) != null && old(InImage(data.w, data.h, data.rowOrder, x, y)) ==>
        data != null && data.w == old(data.w) && data.h == old(data.h) &&
        data.rowOrder == old(data.rowOrder) && !data.textureValid &&
        data.bytes[..] == WritePixel(old(data.bytes[..]), data.w, data.h, data.rowOrder, x, y, ColorToBytes(c))
      ensures old(data) != null && old(data.useCount) == 1 ==> data == old(data) && data.useCount == 1
      ensures old(data) != null && old(data.useCount) > 1 && old(InImage(data.w, data.h, data.rowOrder, x, y)) ==>
        fresh(data) && fresh(data.bytes) && data.useCount == 1 && unchanged(old(data).bytes)
    {
      if data == null {
        return;
      }
      var sy := StoredRow(y, data.h, data.rowOrder);
      if sy < 0 || sy >= data.h || x < 0 || x >= data.w {
        return;
      }
      CopyOnWrite();
      data.textureValid := false;
      PixelFits(x, sy, data.w, data.h);
      var i := PixelIndex(x, sy, data.w);
      var b := ColorToBytes(c);
      data.bytes[i] := b[0];
      data.bytes[i + 1] := b[1];
      data.bytes[i + 2] := b[2];
      data.bytes[i + 3] := b[3];
      assert data.bytes[..] == old(data.bytes[..])[..i] + b + old(data.bytes[..])[i + BytesPerPixel..];
    }

    /** `swapRows(y1, y2)`: the bytes of the two rows are exchanged, all others kept. */
    method SwapRows(y1: u32, y2: u32)
      requires Valid() && data != null && y1 < data.h && y2 < data.h
      modifies data.bytes
      ensures RowsExchanged(old(data.bytes[..]), data.bytes[..], data.w, data.h, y1, y2)
    {
      var R := BytesPerPixel * data.w;
      var bytes := data.bytes;
      var index1, index2 := y1 * R, y2 * R;
      MulIsProduct(y1, R);
      MulIsProduct(y2, R);
      RowFits(y1, data.w, data.h);
      RowFits(y2, data.w, data.h);
      if y1 < y2 {
        RowsDisjoint(y1, y2, data.w);
      } else if y2 < y1 {
        RowsDisjoint(y2, y1, data.w);
      }
      SwapRanges(bytes, index1, index2, R);
      ExchangedRows(old(bytes[..]), bytes[..], data.w, data.h, y1, y2);
    }

    /** `setRowOrder(newRowOrder)`: nothing when the buffer is already stored in that
        order; otherwise the rows are reversed by swapping them pairwise from both ends.
        An image without rows has nothing to reverse. */
    method SetRowOrder(newRowOrder: RowOrder)
      requires Valid() && data != null
      modifies data, data.bytes
      ensures Valid() && data.rowOrder == newRowOrder
      ensures old(data.rowOrder) == newRowOrder ==> data.bytes[..] == old(data.bytes[..])
      ensures old(data.rowOrder) != newRowOrder ==> ReversedRows(old(data.bytes[..]), data.bytes[..], data.w, data.h)
      ensures data.textureValid == old(data.textureValid) && data.useCount == old(data.useCount)
    {
      if data.rowOrder == newRowOrder {
        return;
      }
      data.rowOrder := newRowOrder;
      if data.h == 0 {
        return;
      }
      var bytes, w, h := data.bytes, data.w, data.h;
      ghost var original := bytes[..];
      var y1: u32, y2: u32 := 0, h - 1;
      while y1 < y2
        invariant y1 + y2 == h - 1 && y1 <= y2 + 1
        invariant PartlyReversed(original, bytes[..], w, h, y1, y2)
        modifies bytes
      {
        ghost var before := bytes[..];
        SwapRows(y1, y2);
        ghost var after := bytes[..];
        SwapStep(original, before, after, w, h, y1, y2);
        y1, y2 := y1 + 1, y2 - 1;
      }
      Reversed(original, bytes[..], w, h, y1, y2);
    }
  }
}
