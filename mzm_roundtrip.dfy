/** Saving a rectangle and loading the file back: each record of the
    payload save_mzm writes lands, after the loader's clipping, on the
    matching cell of the destination and reproduces what was saved. */
module MzmRoundTrip {
  import opened Bytes
  import opened MzmFormat
  import opened MzmBoard
  import opened MzmTiles
  import opened MzmGlyphs
  import opened MzmSave
  import opened MzmRobots
  import opened MzmLoad

  /** `data` holds `payload` from position `p` on. */
  predicate Holds(data: seq<int>, p: int, payload: seq<int>)
  {
    0 <= p && p + |payload| <= |data| && data[p..p + |payload|] == payload
  }

  lemma HoldsAt(data: seq<int>, p: int, payload: seq<int>, i: int)
    requires Holds(data, p, payload) && 0 <= i < |payload|
    ensures ByteAt(data, p + i) == payload[i]
  {
    assert data[p..p + |payload|][i] == data[p + i];
  }

  lemma HoldsSlice(data: seq<int>, p: int, payload: seq<int>, i: int, n: nat)
    requires Holds(data, p, payload) && 0 <= i && i + n <= |payload|
    ensures Holds(data, p + i, payload[i..i + n])
  {
    forall j | i <= j < i + n
      ensures payload[j] == data[p + j]
    {
      assert data[p..p + |payload|][j] == data[p + j];
    }
    assert data[p + i..p + i + n] == payload[i..i + n];
  }

  /** Where row `y` of a rectangle starts, `stride` entries per row,
      counted row by row. */
  function RowOffset(y: nat, stride: int): int
  {
    if y == 0 then 0 else stride + RowOffset(y - 1, stride)
  }

  lemma {:induction false} RowOffsetIsProduct(y: nat, stride: int)
    ensures RowOffset(y, stride) == y * stride
  {
    if y > 0 {
      RowOffsetIsProduct(y - 1, stride);
      assert y * stride == stride + (y - 1) * stride;
    }
  }

  lemma SliceOfLeft(a: seq<int>, b: seq<int>, i: int, n: nat)
    requires 0 <= i && i + n <= |a|
    ensures (a + b)[i..i + n] == a[i..i + n]
  {
    forall j | i <= j < i + n
      ensures (a + b)[j] == a[j]
    {
    }
  }

  lemma SliceOfRight(a: seq<int>, b: seq<int>, i: int, n: nat)
    requires |a| <= i && i + n <= |a| + |b|
    ensures (a + b)[i..i + n] == b[i - |a|..i - |a| + n]
  {
    forall j | i <= j < i + n
      ensures (a + b)[j] == b[j - |a|]
    {
    }
  }

  /** A record inside the first part of a concatenation. */
  lemma RecordInFirst(whole: seq<int>, first: seq<int>, rest: seq<int>, i: int, n: nat, record: seq<int>)
    requires whole == first + rest && 0 <= i && i + n <= |first| && first[i..i + n] == record
    ensures i + n <= |whole| && whole[i..i + n] == record
  {
    SliceOfLeft(first, rest, i, n);
  }

  /** A record inside the second part of a concatenation. */
  lemma RecordInRest(whole: seq<int>, first: seq<int>, rest: seq<int>, i: int, j: int, n: nat, record: seq<int>)
    requires whole == first + rest
    requires j == i - |first|
    requires 0 <= j && j + n <= |rest|
    requires rest[j..j + n] == record
    ensures 0 <= i && i + n <= |whole| && whole[i..i + n] == record
  {
    SliceOfRight(first, rest, i, n);
  }

  // ---------------------------------------------------------------------
  // A payload as rows of fixed-size records

  /** The records of cells `o`, `o + 1`, ..., `o + n - 1`, in order. */
  function Records(rec: int -> seq<int>, o: int, n: nat): seq<int>
  {
    if n == 0 then [] else Records(rec, o, n - 1) + rec(o + n - 1)
  }

  /** `rows` rows of `width` records, row after row `stride` cells apart. */
  function Grid(rec: int -> seq<int>, stride: int, o: int, width: nat, rows: nat): seq<int>
    decreases rows
  {
    if rows == 0 then [] else Records(rec, o, width) + Grid(rec, stride, o + stride, width, rows - 1)
  }

  /** Any payload function that starts empty and puts a row of records
      before the rows `stride` cells further on is `Grid`. */
  lemma {:induction false} GridUnique(payload: (int, nat) -> seq<int>, rec: int -> seq<int>, stride: int,
                                      width: nat, o: int, rows: nat)
    requires forall q: int :: payload(q, 0) == []
    requires forall q: int, r: nat :: r > 0 ==> payload(q, r) == Records(rec, q, width) + payload(q + stride, r - 1)
    ensures payload(o, rows) == Grid(rec, stride, o, width, rows)
    decreases rows
  {
    if rows > 0 {
      GridUnique(payload, rec, stride, width, o + stride, rows - 1);
    }
  }

  /** Every record is `size` bytes long. */
  ghost predicate Sized(rec: int -> seq<int>, size: nat)
  {
    forall k :: |rec(k)| == size
  }

  lemma {:induction false} RecordsLength(rec: int -> seq<int>, size: nat, o: int, n: nat)
    requires Sized(rec, size)
    ensures |Records(rec, o, n)| == RowOffset(n, size)
  {
    if n > 0 {
      RecordsLength(rec, size, o, n - 1);
    }
  }

  /** Record `x` of a row starts `x` records in. */
  lemma {:induction false} RecordsAt(rec: int -> seq<int>, size: nat, o: int, n: nat, x: int, i: int)
    requires Sized(rec, size) && 0 <= x < n && i == RowOffset(x, size)
    ensures 0 <= i && i + size <= |Records(rec, o, n)| && Records(rec, o, n)[i..i + size] == rec(o + x)
  {
    var before := Records(rec, o, n - 1);
    var last := rec(o + n - 1);
    RecordsLength(rec, size, o, n - 1);
    if x < n - 1 {
      RecordsAt(rec, size, o, n - 1, x, i);
      RecordInFirst(before + last, before, last, i, size, rec(o + x));
    } else {
      assert last[0..size] == last;
      RecordInRest(before + last, before, last, i, 0, size, rec(o + x));
    }
  }

  /** Record `x` of row `y` starts `y` rows and `x` records in. */
  lemma {:induction false} GridAt(rec: int -> seq<int>, size: nat, stride: int, o: int, width: nat, rows: nat,
                                  x: int, y: nat, i: int, k: int)
    requires Sized(rec, size) && 0 <= x < width && 0 <= y < rows
    requires i == RowOffset(y, RowOffset(width, size)) + RowOffset(x, size)
    requires k == o + RowOffset(y, stride) + x
    ensures 0 <= i && i + size <= |Grid(rec, stride, o, width, rows)|
    ensures Grid(rec, stride, o, width, rows)[i..i + size] == rec(k)
    decreases rows
  {
    var row := Records(rec, o, width);
    var rest := Grid(rec, stride, o + stride, width, rows - 1);
    RecordsLength(rec, size, o, width);
    if y == 0 {
      RecordsAt(rec, size, o, width, x, i);
      RecordInFirst(row + rest, row, rest, i, size, rec(k));
    } else {
      var j := i - |row|;
      GridAt(rec, size, stride, o + stride, width, rows - 1, x, y - 1, j, k);
      RecordInRest(row + rest, row, rest, i, j, size, rec(k));
    }
  }

  /** The offset of record `x` of row `y` as a product. */
  lemma GridOffset(size: nat, width: nat, x: nat, y: nat)
    ensures RowOffset(y, RowOffset(width, size)) + RowOffset(x, size) == y * (size * width) + size * x
  {
    RowOffsetIsProduct(width, size);
    RowOffsetIsProduct(y, size * width);
    RowOffsetIsProduct(x, size);
  }

  // ---------------------------------------------------------------------
  // Layer storage

  /** The record save_mzm writes for glyph `k` of a layer. */
  function GlyphRecords(glyphs: seq<Glyph>): int -> seq<int>
  {
    k => GlyphBytes(GlyphAt(glyphs, k))
  }

  lemma {:induction false} LayerRowIsRecords(glyphs: seq<Glyph>, o: int, n: nat)
    ensures LayerRow(glyphs, o, n) == Records(GlyphRecords(glyphs), o, n)
  {
    if n > 0 {
      LayerRowIsRecords(glyphs, o, n - 1);
    }
  }

  /** The layer payload of `width` columns as a function of its origin
      and its number of rows. */
  function LayerPayloadFn(glyphs: seq<Glyph>, layerWidth: int, width: nat): (int, nat) -> seq<int>
  {
    (q: int, r: nat) => LayerPayload(glyphs, layerWidth, q, width, r)
  }

  lemma LayerPayloadUnfold(glyphs: seq<Glyph>, layerWidth: int, q: int, width: nat, r: nat)
    requires r > 0
    ensures LayerPayload(glyphs, layerWidth, q, width, r) ==
      Records(GlyphRecords(glyphs), q, width) + LayerPayload(glyphs, layerWidth, q + layerWidth, width, r - 1)
  {
    LayerRowIsRecords(glyphs, q, width);
  }

  lemma LayerPayloadFnUnfold(glyphs: seq<Glyph>, layerWidth: int, width: nat, q: int, r: nat)
    requires r > 0
    ensures LayerPayloadFn(glyphs, layerWidth, width)(q, r) ==
      Records(GlyphRecords(glyphs), q, width) + LayerPayloadFn(glyphs, layerWidth, width)(q + layerWidth, r - 1)
  {
    LayerPayloadUnfold(glyphs, layerWidth, q, width, r);
  }

  lemma LayerPayloadFnEmpty(glyphs: seq<Glyph>, layerWidth: int, width: nat)
    ensures forall q: int :: LayerPayloadFn(glyphs, layerWidth, width)(q, 0) == []
  {
  }

  lemma LayerPayloadFnSteps(glyphs: seq<Glyph>, layerWidth: int, width: nat)
    ensures forall q: int, r: nat :: r > 0 ==>
      LayerPayloadFn(glyphs, layerWidth, width)(q, r) ==
      Records(GlyphRecords(glyphs), q, width) + LayerPayloadFn(glyphs, layerWidth, width)(q + layerWidth, r - 1)
  {
    forall q: int, r: nat | r > 0
      ensures LayerPayloadFn(glyphs, layerWidth, width)(q, r) ==
        Records(GlyphRecords(glyphs), q, width) + LayerPayloadFn(glyphs, layerWidth, width)(q + layerWidth, r - 1)
    {
      LayerPayloadFnUnfold(glyphs, layerWidth, width, q, r);
    }
  }

  lemma LayerPayloadIsGrid(glyphs: seq<Glyph>, layerWidth: int, o: int, width: nat, rows: nat)
    ensures LayerPayload(glyphs, layerWidth, o, width, rows) == Grid(GlyphRecords(glyphs), layerWidth, o, width, rows)
  {
    LayerPayloadFnEmpty(glyphs, layerWidth, width);
    LayerPayloadFnSteps(glyphs, layerWidth, width);
    GridUnique(LayerPayloadFn(glyphs, layerWidth, width), GlyphRecords(glyphs), layerWidth, width, o, rows);
  }

  /** The two bytes of a saved glyph read back give the glyph when its char
      and color are bytes. */
  lemma GlyphRoundTrip(g: Glyph, data: seq<int>, q: int)
    requires IsByte(g.ch) && IsByte(g.color) && Holds(data, q, GlyphBytes(g))
    ensures RecordGlyph(data, q, LayerStorage) == g
  {
    HoldsAt(data, q, GlyphBytes(g), 0);
    HoldsAt(data, q, GlyphBytes(g), 1);
  }

  /** Record `x` of row `y` of a saved layer payload held at `p`. */
  lemma GlyphHeld(glyphs: seq<Glyph>, srcWidth: int, so: int, width: nat, rows: nat, data: seq<int>, p: int,
                  x: int, y: int, i: int, k: int)
    requires Holds(data, p, LayerPayload(glyphs, srcWidth, so, width, rows))
    requires 0 <= x < width && 0 <= y < rows
    requires i == y * (2 * width) + 2 * x && k == so + y * srcWidth + x
    ensures Holds(data, p + i, GlyphBytes(GlyphAt(glyphs, k)))
  {
    var rec := GlyphRecords(glyphs);
    GridOffset(2, width, x, y);
    RowOffsetIsProduct(y, srcWidth);
    LayerPayloadIsGrid(glyphs, srcWidth, so, width, rows);
    GridAt(rec, 2, srcWidth, so, width, rows, x, y, i, k);
    HoldsSlice(data, p, Grid(rec, srcWidth, so, width, rows), i, 2);
  }

  /** The loader's side: a layer-storage load onto a layer leaves in the
      cell (startX + x, startY + y) of the clipped rectangle the glyph of
      record `x` of file row `y`. */
  lemma LoadedLayerAt(dst: seq<Glyph>, destWidth: int, destHeight: int, data: seq<int>, h: Header,
                      startX: int, startY: int, x: int, y: int)
    requires h.width >= 0 && h.height >= 0 && h.storageMode != 0
    requires |dst| == destWidth * destHeight && 0 <= startX < destWidth && 0 <= startY < destHeight
    requires 0 <= x < Effective(h.width, startX, destWidth) && 0 <= y < Effective(h.height, startY, destHeight)
    ensures 0 <= (startX + x) + (startY + y) * destWidth < |dst|
    ensures LoadedLayer(dst, data, h, destWidth, destHeight, startX, startY)[(startX + x) + (startY + y) * destWidth] ==
      RecordGlyph(data, h.dataStart + y * (2 * h.width) + 2 * x, LayerStorage)
  {
    EffectiveWithin(h.width, startX, destWidth);
    EffectiveWithin(h.height, startY, destHeight);
    assert (startY + y) - startY == y && (startX + x) - startX == x;
    LoadedGlyph(dst, data, LayerStorage, h.dataStart, h.width, destWidth, destHeight, startX, startY,
                Effective(h.width, startX, destWidth), Effective(h.height, startY, destHeight), startX + x, startY + y);
  }

  /** A layer-storage file whose payload is the one a save of `glyphs`
      wrote, loaded onto a layer: every cell of the clipped rectangle gets
      the char and color saved from the matching cell. */
  lemma LayerLoadRoundTrip(glyphs: seq<Glyph>, srcWidth: int, so: int, dst: seq<Glyph>, destWidth: int,
                           destHeight: int, data: seq<int>, h: Header, startX: int, startY: int, x: int, y: int)
    requires h.width >= 0 && h.height >= 0 && h.storageMode != 0
    requires Holds(data, h.dataStart, LayerPayload(glyphs, srcWidth, so, h.width, h.height))
    requires |dst| == destWidth * destHeight && 0 <= startX < destWidth && 0 <= startY < destHeight
    requires 0 <= x < Effective(h.width, startX, destWidth) && 0 <= y < Effective(h.height, startY, destHeight)
    requires IsByte(GlyphAt(glyphs, so + y * srcWidth + x).ch) && IsByte(GlyphAt(glyphs, so + y * srcWidth + x).color)
    ensures 0 <= (startX + x) + (startY + y) * destWidth < |dst|
    ensures LoadedLayer(dst, data, h, destWidth, destHeight, startX, startY)[(startX + x) + (startY + y) * destWidth] ==
      GlyphAt(glyphs, so + y * srcWidth + x)
  {
    var i := y * (2 * h.width) + 2 * x;
    var k := so + y * srcWidth + x;
    GlyphHeld(glyphs, srcWidth, so, h.width, h.height, data, h.dataStart, x, y, i, k);
    GlyphRoundTrip(GlyphAt(glyphs, k), data, h.dataStart + i);
    LoadedLayerAt(dst, destWidth, destHeight, data, h, startX, startY, x, y);
  }

  // ---------------------------------------------------------------------
  // Board storage

  /** The six bytes of a saved record read back give the saved cell when
      its fields are bytes, its id is one the loader keeps and its under
      id is below SENSOR. */
  predicate Reloadable(r: Cell)
  {
    IsByte(r.id) && IsByte(r.param) && IsByte(r.color) &&
    IsByte(r.underId) && IsByte(r.underParam) && IsByte(r.underColor) &&
    (r.id < Sensor || IsRobot(r.id)) && r.underId < Sensor
  }

  lemma CellRoundTrip(r: Cell, data: seq<int>, q: int)
    requires Reloadable(r) && Holds(data, q, CellBytes(r))
    ensures RecordCell(data, q) == r
  {
    var bytes := CellBytes(r);
    forall j | 0 <= j < 6
      ensures ByteAt(data, q + j) == bytes[j]
    {
      HoldsAt(data, q, bytes, j);
    }
  }

  /** The record a board-to-board save writes for the cell at `k`. */
  function SavedRecord(cells: seq<Cell>, chars: seq<int>, colors: seq<int>, k: int): seq<int>
  {
    CellBytes(SavedCell(CellAt(cells, k), ByteAt(chars, k), ByteAt(colors, k)))
  }

  /** The records of a board-to-board save. */
  function SavedRecords(cells: seq<Cell>, chars: seq<int>, colors: seq<int>): int -> seq<int>
  {
    k => SavedRecord(cells, chars, colors, k)
  }

  lemma {:induction false} SavedRowIsRecords(cells: seq<Cell>, chars: seq<int>, colors: seq<int>, o: int, n: nat)
    ensures SavedRow(cells, chars, colors, o, n) == Records(SavedRecords(cells, chars, colors), o, n)
  {
    if n > 0 {
      SavedRowIsRecords(cells, chars, colors, o, n - 1);
    }
  }

  /** The board payload of `width` columns as a function of its origin
      and its number of rows. */
  function SavedPayloadFn(cells: seq<Cell>, chars: seq<int>, colors: seq<int>, boardWidth: int, width: nat)
    : (int, nat) -> seq<int>
  {
    (q: int, r: nat) => SavedBoardPayload(cells, chars, colors, boardWidth, q, width, r)
  }

  lemma SavedPayloadUnfold(cells: seq<Cell>, chars: seq<int>, colors: seq<int>, boardWidth: int,
                           q: int, width: nat, r: nat)
    requires r > 0
    ensures SavedBoardPayload(cells, chars, colors, boardWidth, q, width, r) ==
      Records(SavedRecords(cells, chars, colors), q, width) +
      SavedBoardPayload(cells, chars, colors, boardWidth, q + boardWidth, width, r - 1)
  {
    SavedRowIsRecords(cells, chars, colors, q, width);
  }

  lemma SavedPayloadFnUnfold(cells: seq<Cell>, chars: seq<int>, colors: seq<int>, boardWidth: int,
                             width: nat, q: int, r: nat)
    requires r > 0
    ensures SavedPayloadFn(cells, chars, colors, boardWidth, width)(q, r) ==
      Records(SavedRecords(cells, chars, colors), q, width) +
      SavedPayloadFn(cells, chars, colors, boardWidth, width)(q + boardWidth, r - 1)
  {
    SavedPayloadUnfold(cells, chars, colors, boardWidth, q, width, r);
  }

  lemma SavedPayloadFnEmpty(cells: seq<Cell>, chars: seq<int>, colors: seq<int>, boardWidth: int, width: nat)
    ensures forall q: int :: SavedPayloadFn(cells, chars, colors, boardWidth, width)(q, 0) == []
  {
  }

  lemma SavedPayloadFnSteps(cells: seq<Cell>, chars: seq<int>, colors: seq<int>, boardWidth: int, width: nat)
    ensures forall q: int, r: nat :: r > 0 ==>
      SavedPayloadFn(cells, chars, colors, boardWidth, width)(q, r) ==
      Records(SavedRecords(cells, chars, colors), q, width) +
      SavedPayloadFn(cells, chars, colors, boardWidth, width)(q + boardWidth, r - 1)
  {
    forall q: int, r: nat | r > 0
      ensures SavedPayloadFn(cells, chars, colors, boardWidth, width)(q, r) ==
        Records(SavedRecords(cells, chars, colors), q, width) +
        SavedPayloadFn(cells, chars, colors, boardWidth, width)(q + boardWidth, r - 1)
    {
      SavedPayloadFnUnfold(cells, chars, colors, boardWidth, width, q, r);
    }
  }

  lemma SavedPayloadIsGrid(cells: seq<Cell>, chars: seq<int>, colors: seq<int>, boardWidth: int,
                           o: int, width: nat, rows: nat)
    ensures SavedBoardPayload(cells, chars, colors, boardWidth, o, width, rows) ==
      Grid(SavedRecords(cells, chars, colors), boardWidth, o, width, rows)
  {
    SavedPayloadFnEmpty(cells, chars, colors, boardWidth, width);
    SavedPayloadFnSteps(cells, chars, colors, boardWidth, width);
    GridUnique(SavedPayloadFn(cells, chars, colors, boardWidth, width), SavedRecords(cells, chars, colors),
               boardWidth, width, o, rows);
  }

  /** Record `x` of row `y` of a saved board payload held at `p`. */
  lemma SavedRecordHeld(cells: seq<Cell>, chars: seq<int>, colors: seq<int>, srcWidth: int, so: int,
                        width: nat, rows: nat, data: seq<int>, p: int, x: int, y: int, i: int, k: int)
    requires Holds(data, p, SavedBoardPayload(cells, chars, colors, srcWidth, so, width, rows))
    requires 0 <= x < width && 0 <= y < rows
    requires i == y * (6 * width) + 6 * x && k == so + y * srcWidth + x
    ensures Holds(data, p + i, SavedRecord(cells, chars, colors, k))
  {
    var rec := SavedRecords(cells, chars, colors);
    GridOffset(6, width, x, y);
    RowOffsetIsProduct(y, srcWidth);
    SavedPayloadIsGrid(cells, chars, colors, srcWidth, so, width, rows);
    GridAt(rec, 6, srcWidth, so, width, rows, x, y, i, k);
    HoldsSlice(data, p, Grid(rec, srcWidth, so, width, rows), i, 6);
  }

  /** The loader's side: a board-storage load onto a board leaves in the
      cell (startX + x, startY + y) of the clipped rectangle, unless it
      is the player's, the cell of record `x` of file row `y`. */
  lemma LoadedTilesAt(s: Scene, boardWidth: int, boardHeight: int, data: seq<int>, h: Header,
                      startX: int, startY: int, x: int, y: int)
    requires h.width >= 0 && h.height >= 0 && h.storageMode == 0
    requires |s.cells| == boardWidth * boardHeight && 0 <= startX < boardWidth && 0 <= startY < boardHeight
    requires 0 <= x < Effective(h.width, startX, boardWidth) && 0 <= y < Effective(h.height, startY, boardHeight)
    ensures 0 <= (startX + x) + (startY + y) * boardWidth < |s.cells|
    ensures s.cells[(startX + x) + (startY + y) * boardWidth].id != Player ==>
      LoadedTiles(s, data, h, boardWidth, boardHeight, startX, startY).cells[(startX + x) + (startY + y) * boardWidth] ==
      RecordCell(data, h.dataStart + y * (6 * h.width) + 6 * x)
  {
    EffectiveWithin(h.width, startX, boardWidth);
    EffectiveWithin(h.height, startY, boardHeight);
    assert (startY + y) - startY == y && (startX + x) - startX == x;
    LoadedBoardCell(Tiles(s.cells, s.slots, []), data, BoardStorage, h.dataStart, h.width, boardWidth, boardHeight,
                    startX, startY, Effective(h.width, startX, boardWidth), Effective(h.height, startY, boardHeight),
                    startX + x, startY + y);
  }

  /** A board-storage file whose payload is the one a board-to-board save
      wrote, loaded onto a board: every cell of the clipped rectangle that
      is not the player's gets the cell saved from the matching source
      cell (before the robot phase gives robots their slots). */
  lemma BoardLoadRoundTrip(cells: seq<Cell>, chars: seq<int>, colors: seq<int>, srcWidth: int, so: int,
                           s: Scene, boardWidth: int, boardHeight: int, data: seq<int>, h: Header,
                           startX: int, startY: int, x: int, y: int)
    requires h.width >= 0 && h.height >= 0 && h.storageMode == 0
    requires Holds(data, h.dataStart, SavedBoardPayload(cells, chars, colors, srcWidth, so, h.width, h.height))
    requires |s.cells| == boardWidth * boardHeight && 0 <= startX < boardWidth && 0 <= startY < boardHeight
    requires 0 <= x < Effective(h.width, startX, boardWidth) && 0 <= y < Effective(h.height, startY, boardHeight)
    requires 0 <= (startX + x) + (startY + y) * boardWidth < |s.cells|
    requires s.cells[(startX + x) + (startY + y) * boardWidth].id != Player
    requires var k := so + y * srcWidth + x;
      Reloadable(SavedCell(CellAt(cells, k), ByteAt(chars, k), ByteAt(colors, k)))
    ensures var k := so + y * srcWidth + x;
      LoadedTiles(s, data, h, boardWidth, boardHeight, startX, startY).cells[(startX + x) + (startY + y) * boardWidth] ==
      SavedCell(CellAt(cells, k), ByteAt(chars, k), ByteAt(colors, k))
  {
    var i := y * (6 * h.width) + 6 * x;
    var k := so + y * srcWidth + x;
    var r := SavedCell(CellAt(cells, k), ByteAt(chars, k), ByteAt(colors, k));
    SavedRecordHeld(cells, chars, colors, srcWidth, so, h.width, h.height, data, h.dataStart, x, y, i, k);
    CellRoundTrip(r, data, h.dataStart + i);
    LoadedTilesAt(s, boardWidth, boardHeight, data, h, startX, startY, x, y);
  }
}
