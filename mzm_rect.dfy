/** Rectangles of a row-major area, the way src/mzm.c walks them: an
    offset that moves one cell at a time along a row and then jumps by the
    area's width minus the row's (`offset += line_skip`), and a file cursor
    that moves one record at a time. */
module MzmRect {

  /** Every one of `rows` rows `width` wide, the first at `o` and each
      `stride` after the one above, lies inside an area of `n` cells. */
  predicate RowsFit(n: int, stride: int, o: int, width: int, rows: nat)
    decreases rows
  {
    rows == 0 || (0 <= o && o + width <= n && RowsFit(n, stride, o + stride, width, rows - 1))
  }

  /** The rows of a rectangle inside an area fit in the area. */
  lemma {:induction false} RectRowsFit(areaWidth: int, areaHeight: int, startX: int, startY: int, width: int, height: nat)
    requires 0 <= startX && 0 <= width && startX + width <= areaWidth
    requires 0 <= startY && startY + height <= areaHeight
    ensures RowsFit(areaWidth * areaHeight, areaWidth, startX + startY * areaWidth, width, height)
    decreases height
  {
    if height > 0 {
      RectRowsFit(areaWidth, areaHeight, startX, startY + 1, width, height - 1);
      assert startX + (startY + 1) * areaWidth == startX + startY * areaWidth + areaWidth;
      assert startY * areaWidth + areaWidth <= areaHeight * areaWidth by {
        assert (areaHeight - startY - 1) * areaWidth >= 0;
        assert areaHeight * areaWidth == startY * areaWidth + areaWidth + (areaHeight - startY - 1) * areaWidth;
      }
    }
  }

  /** Rows that fit an area of `n` cells fit any larger one. */
  lemma {:induction false} RowsFitLarger(n: int, m: int, stride: int, o: int, width: int, rows: nat)
    requires RowsFit(n, stride, o, width, rows) && n <= m
    ensures RowsFit(m, stride, o, width, rows)
    decreases rows
  {
    if rows > 0 {
      RowsFitLarger(n, m, stride, o + stride, width, rows - 1);
    }
  }

  /** The first `rows` rows of a file payload `width` records of `size`
      bytes wide, starting at byte `p`, lie inside `n` bytes. */
  lemma {:induction false} PayloadRowsFit(n: int, p: int, size: nat, width: nat, rows: nat, height: nat)
    requires 0 <= p && rows <= height && p + size * (width * height) <= n
    ensures RowsFit(n, size * width, p, size * width, rows)
    decreases rows
  {
    if rows > 0 {
      assert size * (width * height) == size * width + size * (width * (height - 1)) by {
        assert width * height == width + width * (height - 1);
      }
      assert size * (width * (height - 1)) >= 0;
      PayloadRowsFit(n, p + size * width, size, width, rows - 1, height - 1);
    }
  }

  /** Cell `i` is one of the rectangle's cells. */
  predicate InRows(i: int, o: int, stride: int, width: int, rows: nat)
    decreases rows
  {
    rows > 0 && ((o <= i < o + width) || InRows(i, o + stride, stride, width, rows - 1))
  }

  /** A rectangle's cells lie at or after its first one. */
  lemma {:induction false} InRowsAfterStart(i: int, o: int, stride: int, width: int, rows: nat)
    requires stride >= 0 && InRows(i, o, stride, width, rows)
    ensures i >= o
    decreases rows
  {
    if !(o <= i < o + width) {
      InRowsAfterStart(i, o + stride, stride, width, rows - 1);
    }
  }

  /** A multiple of the area's width other than zero moves at least a
      whole row. */
  lemma RowMultiple(d: int, areaWidth: int)
    requires areaWidth >= 0
    ensures d >= 1 ==> d * areaWidth >= areaWidth
    ensures d <= -1 ==> d * areaWidth <= -areaWidth
  {
    if d >= 1 {
      assert d * areaWidth == areaWidth + (d - 1) * areaWidth;
    } else if d <= -1 {
      assert d * areaWidth == -areaWidth + (d + 1) * areaWidth;
    }
  }

  lemma MulSub(a: int, b: int, c: int)
    ensures (a - b) * c == a * c - b * c
  {
  }

  /** Cell (cx, cy) lies on the rectangle's row at (startX, startY)
      exactly when it is on that line and between its ends. */
  lemma OnRow(areaWidth: int, startX: int, startY: int, width: int, cx: int, cy: int)
    requires 0 <= startX && 0 <= width && startX + width <= areaWidth
    requires 0 <= cx < areaWidth
    ensures startX + startY * areaWidth <= cx + cy * areaWidth < startX + startY * areaWidth + width <==>
      cy == startY && startX <= cx < startX + width
  {
    var d := cy - startY;
    RowMultiple(d, areaWidth);
    assert cx + cy * areaWidth == cx + startY * areaWidth + d * areaWidth;
  }

  /** Cell (cx, cy) of an area `areaWidth` wide is a cell of the rectangle
      at (startX, startY) of `width` x `height` exactly when its
      coordinates fall inside the rectangle's. */
  lemma {:induction false} InRowsRect(areaWidth: int, startX: int, startY: int, width: int, height: nat, cx: int, cy: int)
    requires 0 <= startX && 0 <= width && startX + width <= areaWidth
    requires 0 <= cx < areaWidth
    ensures InRows(cx + cy * areaWidth, startX + startY * areaWidth, areaWidth, width, height) <==>
      startX <= cx < startX + width && startY <= cy < startY + height
    decreases height
  {
    if height > 0 {
      assert startX + startY * areaWidth + areaWidth == startX + (startY + 1) * areaWidth;
      InRowsRect(areaWidth, startX, startY + 1, width, height - 1, cx, cy);
      OnRow(areaWidth, startX, startY, width, cx, cy);
    }
  }

  /** The `n` cells from `o` on, each replaced by `f` of what it held and
      of the position of its record; the records are `size` bytes apart
      from `p` on. */
  function RowWrite<T>(a: seq<T>, f: (T, int) -> T, p: int, size: int, o: int, n: nat): (r: seq<T>)
    requires 0 <= o && o + n <= |a|
    ensures |r| == |a|
    decreases n
  {
    if n == 0 then a
    else RowWrite(a[o := f(a[o], p)], f, p + size, size, o + 1, n - 1)
  }

  /** `rows` rows of RowWrite, the rows `stride` cells apart in the area
      and `fileRow` bytes apart in the file. */
  function RectWrite<T>(a: seq<T>, f: (T, int) -> T, p: int, size: int, fileRow: int,
                        o: int, stride: int, n: nat, rows: nat): (r: seq<T>)
    requires RowsFit(|a|, stride, o, n, rows)
    ensures |r| == |a|
    decreases rows
  {
    if rows == 0 then a
    else RectWrite(RowWrite(a, f, p, size, o, n), f, p + fileRow, size, fileRow, o + stride, stride, n, rows - 1)
  }

  /** A row write leaves the cells outside the row alone. */
  lemma {:induction false} RowWriteOutside<T>(a: seq<T>, f: (T, int) -> T, p: int, size: int, o: int, n: nat, i: int)
    requires 0 <= o && o + n <= |a| && 0 <= i < |a| && (i < o || i >= o + n)
    ensures RowWrite(a, f, p, size, o, n)[i] == a[i]
    decreases n
  {
    if n > 0 {
      RowWriteOutside(a[o := f(a[o], p)], f, p + size, size, o + 1, n - 1, i);
    }
  }

  /** A row write leaves every cell from `from` on alone, once `from` is
      past the row. */
  lemma RowWriteBeyond<T>(a: seq<T>, f: (T, int) -> T, p: int, size: int, o: int, n: nat, from: int)
    requires 0 <= o && o + n <= |a| && o + n <= from
    ensures forall i :: 0 <= i < |a| && from <= i ==> RowWrite(a, f, p, size, o, n)[i] == a[i]
  {
    forall i | 0 <= i < |a| && from <= i
      ensures RowWrite(a, f, p, size, o, n)[i] == a[i]
    {
      RowWriteOutside(a, f, p, size, o, n, i);
    }
  }

  /** The `x`-th cell of a written row holds `f` of its old value and of
      the position of the `x`-th record. */
  lemma {:induction false} RowWriteAt<T>(a: seq<T>, f: (T, int) -> T, p: int, size: int, o: int, n: nat, x: int)
    requires 0 <= o && o + n <= |a| && 0 <= x < n
    ensures RowWrite(a, f, p, size, o, n)[o + x] == f(a[o + x], p + size * x)
    decreases n
  {
    var a1 := a[o := f(a[o], p)];
    if x == 0 {
      RowWriteOutside(a1, f, p + size, size, o + 1, n - 1, o);
    } else {
      RowWriteAt(a1, f, p + size, size, o + 1, n - 1, x - 1);
      assert p + size + size * (x - 1) == p + size * x;
    }
  }

  /** A rectangle write leaves the cells outside the rectangle alone. */
  lemma {:induction false} RectWriteOutside<T>(a: seq<T>, f: (T, int) -> T, p: int, size: int, fileRow: int,
                                               o: int, stride: int, n: nat, rows: nat, i: int)
    requires RowsFit(|a|, stride, o, n, rows) && 0 <= i < |a| && !InRows(i, o, stride, n, rows)
    ensures RectWrite(a, f, p, size, fileRow, o, stride, n, rows)[i] == a[i]
    decreases rows
  {
    if rows > 0 {
      var a1 := RowWrite(a, f, p, size, o, n);
      RowWriteOutside(a, f, p, size, o, n, i);
      RectWriteOutside(a1, f, p + fileRow, size, fileRow, o + stride, stride, n, rows - 1, i);
    }
  }

  /** Cell `x` of row `y` of a written rectangle holds `f` of its old value
      and of the position of its record: `y` file rows and `x` records
      after the first. */
  lemma {:induction false} RectWriteAt<T>(a: seq<T>, f: (T, int) -> T, p: int, size: int, fileRow: int,
                                          o: int, stride: int, n: nat, rows: nat, x: int, y: int)
    requires RowsFit(|a|, stride, o, n, rows) && n <= stride
    requires 0 <= x < n && 0 <= y < rows
    ensures 0 <= o + y * stride + x < |a|
    ensures RectWrite(a, f, p, size, fileRow, o, stride, n, rows)[o + y * stride + x] ==
      f(a[o + y * stride + x], p + y * fileRow + size * x)
    decreases rows
  {
    var a1 := RowWrite(a, f, p, size, o, n);
    if y == 0 {
      RowWriteAt(a, f, p, size, o, n, x);
      if InRows(o + x, o + stride, stride, n, rows - 1) {
        InRowsAfterStart(o + x, o + stride, stride, n, rows - 1);
      }
      RectWriteOutside(a1, f, p + fileRow, size, fileRow, o + stride, stride, n, rows - 1, o + x);
    } else {
      RectWriteAt(a1, f, p + fileRow, size, fileRow, o + stride, stride, n, rows - 1, x, y - 1);
      assert o + stride + (y - 1) * stride + x == o + y * stride + x;
      assert p + fileRow + (y - 1) * fileRow + size * x == p + y * fileRow + size * x;
      RowWriteOutside(a, f, p, size, o, n, o + y * stride + x);
    }
  }
}
