/** What loading the tiles of an MZM into a board does (the board target of
    load_mzm_common in src/mzm.c): each record of the clipped rectangle is
    applied to its cell, the slot of a robot standing on an overwritten
    cell is freed, and for board storage the robots met in the file are
    noted, with those of clipped-away columns marked as not placed. */
module MzmTiles {
  import opened Bytes
  import opened MzmFormat
  import opened MzmBoard
  import opened MzmRect

  /** Where robot number `i` of the file goes: robot_x_locations and
      robot_y_locations, with x = -1 for "not placed". */
  datatype Marker = NotPlaced | At(x: int, y: int)

  /** The board cells, the robot slots and the markers noted so far. */
  datatype Tiles = Tiles(cells: seq<Cell>, slots: seq<Option<RobotObj>>, markers: seq<Marker>)

  /** Bytes per record of a storage mode. */
  function RecordSize(storage: StorageMode): (n: int)
    ensures n == Stride(StorageByte(storage))
  {
    if storage == BoardStorage then 6 else 2
  }

  /** The cursor after `n` records from `p`. */
  function After(storage: StorageMode, p: int, n: int): (q: int)
    ensures q == p + RecordSize(storage) * n
  {
    if storage == BoardStorage then p + 6 * n else p + 2 * n
  }

  /** A row's visible records end before its clipped-away ones, which end
      where the row does. */
  lemma AfterSplit(storage: StorageMode, p: int, effW: int, width: int)
    requires 0 <= effW <= width
    ensures After(storage, p, effW) <= After(storage, p, width)
    ensures After(storage, After(storage, p, effW), width - effW) == After(storage, p, width)
  {
  }

  /** The id a board-storage record's first byte leaves: robots and
      anything below SENSOR are kept, the rest (sensor, sign, scroll,
      player and unknown ids) become 0. */
  function IncomingId(b: int): (id: int)
    ensures id < Sensor || IsRobot(id)
    ensures (b < Sensor || IsRobot(b)) <==> id == b
    ensures !(b < Sensor || IsRobot(b)) ==> id == 0
  {
    if b >= Sensor then (if IsRobot(b) then b else 0) else b
  }

  /** The cell a board-storage record at `p` leaves in a cell that is not
      the player: the incoming id, param and color, and the under triple
      unless its id is SENSOR or above, which becomes 0/0/7. */
  function RecordCell(data: seq<int>, p: int): (c: Cell)
    ensures c.id < Sensor || IsRobot(c.id)
    ensures c.underId < Sensor
    ensures c.id == IncomingId(ByteAt(data, p))
    ensures c.param == ByteAt(data, p + 1) && c.color == ByteAt(data, p + 2)
    ensures ByteAt(data, p + 3) < Sensor ==>
      c.underId == ByteAt(data, p + 3) && c.underParam == ByteAt(data, p + 4) &&
      c.underColor == ByteAt(data, p + 5)
    ensures ByteAt(data, p + 3) >= Sensor ==> c.underId == 0 && c.underParam == 0 && c.underColor == 7
  {
    var under := ByteAt(data, p + 3);
    if under >= Sensor then
      Cell(IncomingId(ByteAt(data, p)), ByteAt(data, p + 1), ByteAt(data, p + 2), 0, 0, 7)
    else
      Cell(IncomingId(ByteAt(data, p)), ByteAt(data, p + 1), ByteAt(data, p + 2),
           under, ByteAt(data, p + 4), ByteAt(data, p + 5))
  }

  /** The cell a layer-storage record at `p` leaves in a cell that is not
      the player: a custom block of that char and color over an empty
      under layer. */
  function LayerCell(data: seq<int>, p: int): (c: Cell)
    ensures c.id == CustomBlock && c.underId == 0 && c.underParam == 0 && c.underColor == 0
    ensures c.param == ByteAt(data, p) && c.color == ByteAt(data, p + 1)
  {
    Cell(CustomBlock, ByteAt(data, p), ByteAt(data, p + 1), 0, 0, 0)
  }

  /** What a record makes of the cell it lands on: the player is never
      overwritten. */
  function StoredCell(c: Cell, data: seq<int>, p: int, storage: StorageMode): (r: Cell)
    ensures c.id == Player ==> r == c
    ensures c.id != Player && storage == BoardStorage ==> r == RecordCell(data, p)
    ensures c.id != Player && storage == LayerStorage ==> r == LayerCell(data, p)
  {
    if c.id == Player then c
    else if storage == BoardStorage then RecordCell(data, p)
    else LayerCell(data, p)
  }

  /** clear_robot_id: the robot in slot `id` is gone. */
  function FreeRobot(slots: seq<Option<RobotObj>>, id: int): (r: seq<Option<RobotObj>>)
    ensures |r| == |slots|
    ensures forall k :: 0 <= k < |r| ==> r[k] == if k == id then None else slots[k]
  {
    if 0 <= id < |slots| then slots[id := None] else slots
  }

  /** Noting a robot's place, while fewer than RobotSlots are noted. */
  function Note(markers: seq<Marker>, m: Marker): (r: seq<Marker>)
    ensures |markers| < RobotSlots ==> r == markers + [m]
    ensures |markers| >= RobotSlots ==> r == markers
  {
    if |markers| < RobotSlots then markers + [m] else markers
  }

  /** The slots once cell `c` is overwritten: a robot standing there is
      cleared. */
  function FreedSlots(slots: seq<Option<RobotObj>>, c: Cell): seq<Option<RobotObj>>
  {
    if IsRobot(c.id) then FreeRobot(slots, c.param) else slots
  }

  /** The markers once the record at `p` is read for column `x` of row
      `y`: a robot record of board storage is noted there. */
  function NoteRecord(markers: seq<Marker>, data: seq<int>, storage: StorageMode, p: int, x: int, y: int): seq<Marker>
  {
    if storage == BoardStorage && IsRobot(ByteAt(data, p)) then Note(markers, At(x, y)) else markers
  }

  /** One visible cell: the robot standing there loses its slot, the
      record is applied, and a robot record is noted at (x, y). */
  function CellStep(t: Tiles, data: seq<int>, storage: StorageMode, p: int, o: int, x: int, y: int): (r: Tiles)
    requires 0 <= o < |t.cells|
    ensures |r.cells| == |t.cells| && |r.slots| == |t.slots|
  {
    var c := t.cells[o];
    Tiles(t.cells[o := StoredCell(c, data, p, storage)], FreedSlots(t.slots, c),
          NoteRecord(t.markers, data, storage, p, x, y))
  }

  /** The `n` visible cells of a row from `o` on, the first at column `x`. */
  function TileRow(t: Tiles, data: seq<int>, storage: StorageMode, p: int, o: int, x: int, y: int, n: nat): (r: Tiles)
    requires 0 <= o && o + n <= |t.cells|
    ensures |r.cells| == |t.cells| && |r.slots| == |t.slots|
    decreases n
  {
    if n == 0 then t
    else TileRow(CellStep(t, data, storage, p, o, x, y), data, storage, p + RecordSize(storage), o + 1, x + 1, y, n - 1)
  }

  /** A cell step, part by part. */
  lemma CellStepParts(t: Tiles, data: seq<int>, storage: StorageMode, p: int, o: int, x: int, y: int)
    requires 0 <= o < |t.cells|
    ensures CellStep(t, data, storage, p, o, x, y) ==
      Tiles(t.cells[o := StoredCell(t.cells[o], data, p, storage)], FreedSlots(t.slots, t.cells[o]),
            NoteRecord(t.markers, data, storage, p, x, y))
  {
  }

  /** A row is its first cell, then the rest of the row. */
  lemma TileRowStep(t: Tiles, t1: Tiles, data: seq<int>, storage: StorageMode, p: int, o: int, x: int, y: int,
                    n: nat, whole: Tiles)
    requires 0 <= o && o + n <= |t.cells| && n > 0
    requires TileRow(t, data, storage, p, o, x, y, n) == whole
    requires t1 == CellStep(t, data, storage, p, o, x, y)
    ensures TileRow(t1, data, storage, p + RecordSize(storage), o + 1, x + 1, y, n - 1) == whole
  {
  }

  /** The `n` clipped-away records of a row from `p` on: a robot among them
      is noted as not placed. Layer storage jumps over them. */
  function SkipRecords(markers: seq<Marker>, data: seq<int>, storage: StorageMode, p: int, n: nat): seq<Marker>
    decreases n
  {
    if n == 0 || storage == LayerStorage then markers
    else SkipRecords(if IsRobot(ByteAt(data, p)) then Note(markers, NotPlaced) else markers,
                     data, storage, p + 6, n - 1)
  }

  /** `rows` rows of the file rectangle `width` records wide, of which the
      first `effW` of each land on the board from `o` on; the first row is
      row `y` of the board and its first cell column `startX`. */
  function TileRows(t: Tiles, data: seq<int>, storage: StorageMode, p: int, width: int, effW: nat,
                    o: int, boardWidth: int, startX: int, y: int, rows: nat): (r: Tiles)
    requires RowsFit(|t.cells|, boardWidth, o, effW, rows) && effW <= width
    ensures |r.cells| == |t.cells| && |r.slots| == |t.slots|
    decreases rows
  {
    if rows == 0 then t
    else
      var t1 := TileRow(t, data, storage, p, o, startX, y, effW);
      var t2 := t1.(markers := SkipRecords(t1.markers, data, storage, After(storage, p, effW), width - effW));
      TileRows(t2, data, storage, After(storage, p, width), width, effW, o + boardWidth, boardWidth, startX, y + 1, rows - 1)
  }

  /** A rectangle is its first file row, then the rows below. */
  lemma TileRowsStep(t: Tiles, t2: Tiles, data: seq<int>, storage: StorageMode, p: int, width: int, effW: nat,
                     o: int, boardWidth: int, startX: int, y: int, rows: nat, whole: Tiles)
    requires RowsFit(|t.cells|, boardWidth, o, effW, rows) && effW <= width && rows > 0
    requires TileRows(t, data, storage, p, width, effW, o, boardWidth, startX, y, rows) == whole
    requires t2 == var t1 := TileRow(t, data, storage, p, o, startX, y, effW);
      t1.(markers := SkipRecords(t1.markers, data, storage, After(storage, p, effW), width - effW))
    ensures RowsFit(|t2.cells|, boardWidth, o + boardWidth, effW, rows - 1)
    ensures TileRows(t2, data, storage, After(storage, p, width), width, effW, o + boardWidth, boardWidth,
                     startX, y + 1, rows - 1) == whole
    ensures RowsFit(|data|, RecordSize(storage) * width, p, RecordSize(storage) * width, rows) ==>
      RowsFit(|data|, RecordSize(storage) * width, After(storage, p, width), RecordSize(storage) * width, rows - 1)
  {
  }

  // ---------------------------------------------------------------------
  // The cells

  /** StoredCell as the cell transform of a rectangle write. */
  function Stored(data: seq<int>, storage: StorageMode): (Cell, int) -> Cell
  {
    (c: Cell, q: int) => StoredCell(c, data, q, storage)
  }

  /** The cells of a row are the row write of StoredCell. */
  lemma {:induction false} TileRowCells(t: Tiles, data: seq<int>, storage: StorageMode, p: int, o: int, x: int, y: int, n: nat)
    requires 0 <= o && o + n <= |t.cells|
    ensures TileRow(t, data, storage, p, o, x, y, n).cells ==
      RowWrite(t.cells, Stored(data, storage), p, RecordSize(storage), o, n)
    decreases n
  {
    if n > 0 {
      var t1 := CellStep(t, data, storage, p, o, x, y);
      assert t1.cells == t.cells[o := Stored(data, storage)(t.cells[o], p)];
      TileRowCells(t1, data, storage, p + RecordSize(storage), o + 1, x + 1, y, n - 1);
    }
  }

  /** The cells of the rectangle are the rectangle write of StoredCell, the
      file rows `width` records apart. */
  lemma {:induction false} TileRowsCells(t: Tiles, data: seq<int>, storage: StorageMode, p: int, width: int, effW: nat,
                                         o: int, boardWidth: int, startX: int, y: int, rows: nat)
    requires RowsFit(|t.cells|, boardWidth, o, effW, rows) && effW <= width
    ensures TileRows(t, data, storage, p, width, effW, o, boardWidth, startX, y, rows).cells ==
      RectWrite(t.cells, Stored(data, storage), p, RecordSize(storage), RecordSize(storage) * width,
                o, boardWidth, effW, rows)
    decreases rows
  {
    if rows > 0 {
      var t1 := TileRow(t, data, storage, p, o, startX, y, effW);
      var t2 := t1.(markers := SkipRecords(t1.markers, data, storage, After(storage, p, effW), width - effW));
      TileRowCells(t, data, storage, p, o, startX, y, effW);
      TileRowsCells(t2, data, storage, After(storage, p, width), width, effW, o + boardWidth, boardWidth,
                    startX, y + 1, rows - 1);
    }
  }

  /** After the tiles, a cell of the clipped rectangle at (cx, cy) holds
      what the record `cy - startY` file rows and `cx - startX` records
      after the first makes of it (so the player stays), and every other
      cell is as it was. */
  lemma LoadedBoardCell(t: Tiles, data: seq<int>, storage: StorageMode, p: int, width: int,
                        boardWidth: int, boardHeight: int, startX: int, startY: int, effW: nat, effH: nat,
                        cx: int, cy: int)
    requires |t.cells| == boardWidth * boardHeight && effW <= width
    requires 0 <= startX && startX + effW <= boardWidth && 0 <= startY && startY + effH <= boardHeight
    requires 0 <= cx < boardWidth && 0 <= cy < boardHeight
    ensures RowsFit(|t.cells|, boardWidth, startX + startY * boardWidth, effW, effH)
    ensures 0 <= cx + cy * boardWidth < |t.cells|
    ensures TileRows(t, data, storage, p, width, effW, startX + startY * boardWidth, boardWidth,
                     startX, startY, effH).cells[cx + cy * boardWidth] ==
      if startX <= cx < startX + effW && startY <= cy < startY + effH then
        StoredCell(t.cells[cx + cy * boardWidth], data,
                   p + (cy - startY) * (RecordSize(storage) * width) + RecordSize(storage) * (cx - startX), storage)
      else t.cells[cx + cy * boardWidth]
  {
    var o := startX + startY * boardWidth;
    RectRowsFit(boardWidth, boardHeight, startX, startY, effW, effH);
    RectIndex(boardWidth, boardHeight, cx, cy);
    assert cy * boardWidth + cx == cx + cy * boardWidth;
    TileRowsCells(t, data, storage, p, width, effW, o, boardWidth, startX, startY, effH);
    InRowsRect(boardWidth, startX, startY, effW, effH, cx, cy);
    var i := cx + cy * boardWidth;
    var size := RecordSize(storage);
    if startX <= cx < startX + effW && startY <= cy < startY + effH {
      var x, y := cx - startX, cy - startY;
      RectWriteAt(t.cells, Stored(data, storage), p, size, size * width, o, boardWidth, effW, effH, x, y);
      MulSub(cy, startY, boardWidth);
    } else {
      RectWriteOutside(t.cells, Stored(data, storage), p, size, size * width, o, boardWidth, effW, effH, i);
    }
  }

  // ---------------------------------------------------------------------
  // The robot slots

  /** The slots left after freeing that of every robot among the `n` cells
      from `o` on. */
  function ClearRow(slots: seq<Option<RobotObj>>, cells: seq<Cell>, o: int, n: nat): (r: seq<Option<RobotObj>>)
    requires 0 <= o && o + n <= |cells|
    ensures |r| == |slots|
    decreases n
  {
    if n == 0 then slots
    else ClearRow(if IsRobot(cells[o].id) then FreeRobot(slots, cells[o].param) else slots, cells, o + 1, n - 1)
  }

  /** ClearRow over the rows of a rectangle. */
  function ClearRect(slots: seq<Option<RobotObj>>, cells: seq<Cell>, o: int, stride: int, n: nat, rows: nat)
    : (r: seq<Option<RobotObj>>)
    requires RowsFit(|cells|, stride, o, n, rows)
    ensures |r| == |slots|
    decreases rows
  {
    if rows == 0 then slots
    else ClearRect(ClearRow(slots, cells, o, n), cells, o + stride, stride, n, rows - 1)
  }

  /** Some robot among the `n` cells from `o` on stands in slot `k`. */
  predicate RowHolds(cells: seq<Cell>, k: int, o: int, n: nat)
    requires 0 <= o && o + n <= |cells|
    decreases n
  {
    n > 0 && ((IsRobot(cells[o].id) && cells[o].param == k) || RowHolds(cells, k, o + 1, n - 1))
  }

  /** Some robot of the rectangle stands in slot `k`. */
  predicate RectHolds(cells: seq<Cell>, k: int, o: int, stride: int, n: nat, rows: nat)
    requires RowsFit(|cells|, stride, o, n, rows)
    decreases rows
  {
    rows > 0 && (RowHolds(cells, k, o, n) || RectHolds(cells, k, o + stride, stride, n, rows - 1))
  }

  /** ClearRow reads only the cells of its row. */
  lemma {:induction false} ClearRowFrame(slots: seq<Option<RobotObj>>, a: seq<Cell>, b: seq<Cell>, o: int, n: nat)
    requires 0 <= o && o + n <= |a| && |a| == |b|
    requires forall i :: o <= i < o + n ==> a[i] == b[i]
    ensures ClearRow(slots, a, o, n) == ClearRow(slots, b, o, n)
    decreases n
  {
    if n > 0 {
      var s1 := if IsRobot(a[o].id) then FreeRobot(slots, a[o].param) else slots;
      ClearRowFrame(s1, a, b, o + 1, n - 1);
    }
  }

  /** ClearRect reads only cells at or after its first one. */
  lemma {:induction false} ClearRectFrame(slots: seq<Option<RobotObj>>, a: seq<Cell>, b: seq<Cell>,
                                          o: int, stride: int, n: nat, rows: nat)
    requires RowsFit(|a|, stride, o, n, rows) && |a| == |b| && stride >= 0
    requires forall i :: 0 <= i < |a| && o <= i ==> a[i] == b[i]
    ensures RowsFit(|b|, stride, o, n, rows)
    ensures ClearRect(slots, a, o, stride, n, rows) == ClearRect(slots, b, o, stride, n, rows)
    decreases rows
  {
    if rows > 0 {
      ClearRowFrame(slots, a, b, o, n);
      ClearRectFrame(ClearRow(slots, a, o, n), a, b, o + stride, stride, n, rows - 1);
    }
  }

  /** The slots after a row are ClearRow of the cells as they were. */
  lemma {:induction false} TileRowSlots(t: Tiles, data: seq<int>, storage: StorageMode, p: int, o: int, x: int, y: int, n: nat)
    requires 0 <= o && o + n <= |t.cells|
    ensures TileRow(t, data, storage, p, o, x, y, n).slots == ClearRow(t.slots, t.cells, o, n)
    decreases n
  {
    if n > 0 {
      var t1 := CellStep(t, data, storage, p, o, x, y);
      TileRowSlots(t1, data, storage, p + RecordSize(storage), o + 1, x + 1, y, n - 1);
      ClearRowFrame(t1.slots, t1.cells, t.cells, o + 1, n - 1);
    }
  }

  /** The slots after the rectangle are ClearRect of the cells as they
      were before any record was applied. */
  lemma {:induction false} TileRowsSlots(t: Tiles, data: seq<int>, storage: StorageMode, p: int, width: int, effW: nat,
                                         o: int, boardWidth: int, startX: int, y: int, rows: nat)
    requires RowsFit(|t.cells|, boardWidth, o, effW, rows) && effW <= width && effW <= boardWidth
    ensures TileRows(t, data, storage, p, width, effW, o, boardWidth, startX, y, rows).slots ==
      ClearRect(t.slots, t.cells, o, boardWidth, effW, rows)
    decreases rows
  {
    if rows > 0 {
      var t1 := TileRow(t, data, storage, p, o, startX, y, effW);
      var t2 := t1.(markers := SkipRecords(t1.markers, data, storage, After(storage, p, effW), width - effW));
      TileRowSlots(t, data, storage, p, o, startX, y, effW);
      TileRowCells(t, data, storage, p, o, startX, y, effW);
      TileRowsSlots(t2, data, storage, After(storage, p, width), width, effW, o + boardWidth, boardWidth,
                    startX, y + 1, rows - 1);
      RowWriteBeyond(t.cells, Stored(data, storage), p, RecordSize(storage), o, effW, o + boardWidth);
      ClearRectFrame(t2.slots, t2.cells, t.cells, o + boardWidth, boardWidth, effW, rows - 1);
    }
  }

  /** After ClearRow, slot `k` is free when a robot of the row stood in
      it, and as it was otherwise. */
  lemma {:induction false} ClearRowAt(slots: seq<Option<RobotObj>>, cells: seq<Cell>, o: int, n: nat, k: int)
    requires 0 <= o && o + n <= |cells| && 0 <= k < |slots|
    ensures ClearRow(slots, cells, o, n)[k] == if RowHolds(cells, k, o, n) then None else slots[k]
    decreases n
  {
    if n > 0 {
      var s1 := if IsRobot(cells[o].id) then FreeRobot(slots, cells[o].param) else slots;
      ClearRowAt(s1, cells, o + 1, n - 1, k);
    }
  }

  /** After ClearRect, slot `k` is free when a robot of the rectangle
      stood in it, and as it was otherwise. */
  lemma {:induction false} ClearRectAt(slots: seq<Option<RobotObj>>, cells: seq<Cell>, o: int, stride: int,
                                       n: nat, rows: nat, k: int)
    requires RowsFit(|cells|, stride, o, n, rows) && 0 <= k < |slots|
    ensures ClearRect(slots, cells, o, stride, n, rows)[k] ==
      if RectHolds(cells, k, o, stride, n, rows) then None else slots[k]
    decreases rows
  {
    if rows > 0 {
      ClearRowAt(slots, cells, o, n, k);
      ClearRectAt(ClearRow(slots, cells, o, n), cells, o + stride, stride, n, rows - 1, k);
    }
  }

  /** A robot standing on a cell of the row is one RowHolds sees. */
  lemma {:induction false} RowHoldsCell(cells: seq<Cell>, o: int, n: nat, i: int)
    requires 0 <= o && o + n <= |cells| && o <= i < o + n && IsRobot(cells[i].id)
    ensures RowHolds(cells, cells[i].param, o, n)
    decreases n
  {
    if i > o {
      RowHoldsCell(cells, o + 1, n - 1, i);
    }
  }

  /** A robot standing on a cell of the rectangle is one RectHolds sees. */
  lemma {:induction false} RectHoldsCell(cells: seq<Cell>, o: int, stride: int, n: nat, rows: nat, i: int)
    requires RowsFit(|cells|, stride, o, n, rows) && InRows(i, o, stride, n, rows)
    requires 0 <= i < |cells| && IsRobot(cells[i].id)
    ensures RectHolds(cells, cells[i].param, o, stride, n, rows)
    decreases rows
  {
    if o <= i < o + n {
      RowHoldsCell(cells, o, n, i);
    } else {
      RectHoldsCell(cells, o + stride, stride, n, rows - 1, i);
    }
  }

  /** After the tiles, slot `k` is free when a robot stood in it on a
      cell of the clipped rectangle, and as it was otherwise. */
  lemma LoadedBoardSlots(t: Tiles, data: seq<int>, storage: StorageMode, p: int, width: int,
                         boardWidth: int, boardHeight: int, startX: int, startY: int, effW: nat, effH: nat, k: int)
    requires |t.cells| == boardWidth * boardHeight && effW <= width && 0 <= k < |t.slots|
    requires 0 <= startX && startX + effW <= boardWidth && 0 <= startY && startY + effH <= boardHeight
    ensures RowsFit(|t.cells|, boardWidth, startX + startY * boardWidth, effW, effH)
    ensures TileRows(t, data, storage, p, width, effW, startX + startY * boardWidth, boardWidth,
                     startX, startY, effH).slots[k] ==
      if RectHolds(t.cells, k, startX + startY * boardWidth, boardWidth, effW, effH) then None else t.slots[k]
  {
    var o := startX + startY * boardWidth;
    RectRowsFit(boardWidth, boardHeight, startX, startY, effW, effH);
    TileRowsSlots(t, data, storage, p, width, effW, o, boardWidth, startX, startY, effH);
    ClearRectAt(t.slots, t.cells, o, boardWidth, effW, effH, k);
  }

  /** A robot standing at (cx, cy) inside the clipped rectangle has lost
      its slot once the tiles are loaded. */
  lemma LoadedRobotFreed(t: Tiles, data: seq<int>, storage: StorageMode, p: int, width: int,
                         boardWidth: int, boardHeight: int, startX: int, startY: int, effW: nat, effH: nat,
                         cx: int, cy: int)
    requires |t.cells| == boardWidth * boardHeight && effW <= width
    requires 0 <= startX && startX + effW <= boardWidth && 0 <= startY && startY + effH <= boardHeight
    requires startX <= cx < startX + effW && startY <= cy < startY + effH
    ensures RowsFit(|t.cells|, boardWidth, startX + startY * boardWidth, effW, effH)
    ensures 0 <= cx + cy * boardWidth < |t.cells|
    ensures IsRobot(t.cells[cx + cy * boardWidth].id) && 0 <= t.cells[cx + cy * boardWidth].param < |t.slots| ==>
      TileRows(t, data, storage, p, width, effW, startX + startY * boardWidth, boardWidth,
               startX, startY, effH).slots[t.cells[cx + cy * boardWidth].param] == None
  {
    var o := startX + startY * boardWidth;
    var i := cx + cy * boardWidth;
    RectRowsFit(boardWidth, boardHeight, startX, startY, effW, effH);
    RectIndex(boardWidth, boardHeight, cx, cy);
    assert cy * boardWidth + cx == i;
    if IsRobot(t.cells[i].id) && 0 <= t.cells[i].param < |t.slots| {
      InRowsRect(boardWidth, startX, startY, effW, effH, cx, cy);
      RectHoldsCell(t.cells, o, boardWidth, effW, effH, i);
      LoadedBoardSlots(t, data, storage, p, width, boardWidth, boardHeight, startX, startY, effW, effH,
                       t.cells[i].param);
    }
  }

  // ---------------------------------------------------------------------
  // The robot markers

  /** The first RobotSlots markers: all robot_x_locations can hold. */
  function Cap(markers: seq<Marker>): (r: seq<Marker>)
    ensures |r| <= RobotSlots
    ensures |markers| <= RobotSlots ==> r == markers
    ensures |markers| > RobotSlots ==> r == markers[..RobotSlots]
  {
    if |markers| <= RobotSlots then markers else markers[..RobotSlots]
  }

  /** Noting one more marker keeps the first RobotSlots of all noted. */
  lemma NoteCap(markers: seq<Marker>, m: Marker)
    ensures Note(Cap(markers), m) == Cap(markers + [m])
  {
    if |markers| > RobotSlots {
      assert (markers + [m])[..RobotSlots] == markers[..RobotSlots];
    }
  }

  /** Capping early or late keeps the same markers. */
  lemma CapAppend(a: seq<Marker>, b: seq<Marker>)
    ensures Cap(Cap(a) + b) == Cap(a + b)
  {
    if |a| > RobotSlots {
      assert (a[..RobotSlots] + b)[..RobotSlots] == a[..RobotSlots] == (a + b)[..RobotSlots];
    }
  }

  lemma Assoc(a: seq<Marker>, b: seq<Marker>, c: seq<Marker>)
    ensures a + b + c == a + (b + c)
  {
  }

  /** The marker a visible record adds: its place when it is a robot. */
  function CellMarker(data: seq<int>, storage: StorageMode, p: int, x: int, y: int): seq<Marker>
  {
    if storage == BoardStorage && IsRobot(ByteAt(data, p)) then [At(x, y)] else []
  }

  /** The markers of the `n` visible records of a row, without a bound. */
  function MarkerRow(data: seq<int>, storage: StorageMode, p: int, x: int, y: int, n: nat): seq<Marker>
    decreases n
  {
    if n == 0 then []
    else CellMarker(data, storage, p, x, y) + MarkerRow(data, storage, p + RecordSize(storage), x + 1, y, n - 1)
  }

  /** The markers of `n` clipped-away records, without a bound. */
  function SkipMarkers(data: seq<int>, storage: StorageMode, p: int, n: nat): seq<Marker>
    decreases n
  {
    if n == 0 || storage == LayerStorage then []
    else (if IsRobot(ByteAt(data, p)) then [NotPlaced] else []) + SkipMarkers(data, storage, p + 6, n - 1)
  }

  /** Every marker the tile loop of the source writes into
      robot_x_locations, in order, without a bound: one per robot record
      of the rows that are read. */
  function MarkerRect(data: seq<int>, storage: StorageMode, p: int, width: int, effW: nat,
                      startX: int, y: int, rows: nat): seq<Marker>
    requires effW <= width
    decreases rows
  {
    if rows == 0 then []
    else
      MarkerRow(data, storage, p, startX, y, effW) +
      SkipMarkers(data, storage, After(storage, p, effW), width - effW) +
      MarkerRect(data, storage, After(storage, p, width), width, effW, startX, y + 1, rows - 1)
  }

  /** One record of a row, with the rest of the row at plain positions. */
  lemma TileRowUnfold(t: Tiles, data: seq<int>, storage: StorageMode, p: int, o: int, x: int, y: int, n: nat,
                      p1: int, o1: int, x1: int, n1: nat)
    requires 0 <= o && o + n <= |t.cells| && n > 0
    requires p1 == p + RecordSize(storage) && o1 == o + 1 && x1 == x + 1 && n1 == n - 1
    ensures TileRow(t, data, storage, p, o, x, y, n) ==
      TileRow(CellStep(t, data, storage, p, o, x, y), data, storage, p1, o1, x1, y, n1)
    ensures MarkerRow(data, storage, p, x, y, n) ==
      CellMarker(data, storage, p, x, y) + MarkerRow(data, storage, p1, x1, y, n1)
  {
  }

  lemma {:induction false} TileRowMarkers(t: Tiles, data: seq<int>, storage: StorageMode, p: int, o: int, x: int, y: int, n: nat)
    requires 0 <= o && o + n <= |t.cells| && |t.markers| <= RobotSlots
    ensures TileRow(t, data, storage, p, o, x, y, n).markers == Cap(t.markers + MarkerRow(data, storage, p, x, y, n))
    decreases n
  {
    if n == 0 {
      assert t.markers + [] == t.markers;
    } else {
      var t1 := CellStep(t, data, storage, p, o, x, y);
      var p1, o1, x1, n1 := p + RecordSize(storage), o + 1, x + 1, n - 1;
      var head := CellMarker(data, storage, p, x, y);
      var rest := MarkerRow(data, storage, p1, x1, y, n1);
      TileRowUnfold(t, data, storage, p, o, x, y, n, p1, o1, x1, n1);
      if head == [] {
        assert t1.markers == Cap(t.markers + head);
      } else {
        NoteCap(t.markers, At(x, y));
      }
      TileRowMarkers(t1, data, storage, p1, o1, x1, y, n1);
      CapAppend(t.markers + head, rest);
      Assoc(t.markers, head, rest);
    }
  }

  lemma {:induction false} SkipRecordsMarkers(markers: seq<Marker>, data: seq<int>, storage: StorageMode, p: int, n: nat)
    requires |markers| <= RobotSlots
    ensures SkipRecords(markers, data, storage, p, n) == Cap(markers + SkipMarkers(data, storage, p, n))
    decreases n
  {
    if n == 0 || storage == LayerStorage {
      assert markers + [] == markers;
    } else {
      var head: seq<Marker> := if IsRobot(ByteAt(data, p)) then [NotPlaced] else [];
      var m1 := if IsRobot(ByteAt(data, p)) then Note(markers, NotPlaced) else markers;
      var rest := SkipMarkers(data, storage, p + 6, n - 1);
      if head == [] {
        assert m1 == Cap(markers + head);
      } else {
        NoteCap(markers, NotPlaced);
      }
      SkipRecordsMarkers(m1, data, storage, p + 6, n - 1);
      CapAppend(markers + head, rest);
      Assoc(markers, head, rest);
    }
  }

  /** One row of a rectangle, with the rows below at plain positions. */
  lemma TileRowsUnfold(t: Tiles, t2: Tiles, data: seq<int>, storage: StorageMode, p: int, width: int, effW: nat,
                       o: int, boardWidth: int, startX: int, y: int, rows: nat, p1: int, o1: int, y1: int, r1: nat)
    requires RowsFit(|t.cells|, boardWidth, o, effW, rows) && effW <= width && rows > 0
    requires t2 == var t1 := TileRow(t, data, storage, p, o, startX, y, effW);
      t1.(markers := SkipRecords(t1.markers, data, storage, After(storage, p, effW), width - effW))
    requires p1 == After(storage, p, width) && o1 == o + boardWidth && y1 == y + 1 && r1 == rows - 1
    ensures RowsFit(|t2.cells|, boardWidth, o1, effW, r1)
    ensures TileRows(t, data, storage, p, width, effW, o, boardWidth, startX, y, rows) ==
      TileRows(t2, data, storage, p1, width, effW, o1, boardWidth, startX, y1, r1)
    ensures MarkerRect(data, storage, p, width, effW, startX, y, rows) ==
      MarkerRow(data, storage, p, startX, y, effW) + SkipMarkers(data, storage, After(storage, p, effW), width - effW) +
      MarkerRect(data, storage, p1, width, effW, startX, y1, r1)
  {
  }

  /** The markers after the rectangle are the first RobotSlots of those
      the source writes. */
  lemma {:induction false} TileRowsMarkers(t: Tiles, data: seq<int>, storage: StorageMode, p: int, width: int, effW: nat,
                                           o: int, boardWidth: int, startX: int, y: int, rows: nat)
    requires RowsFit(|t.cells|, boardWidth, o, effW, rows) && effW <= width && |t.markers| <= RobotSlots
    ensures TileRows(t, data, storage, p, width, effW, o, boardWidth, startX, y, rows).markers ==
      Cap(t.markers + MarkerRect(data, storage, p, width, effW, startX, y, rows))
    decreases rows
  {
    if rows == 0 {
      assert t.markers + [] == t.markers;
    } else {
      var t1 := TileRow(t, data, storage, p, o, startX, y, effW);
      var skipAt := After(storage, p, effW);
      var t2 := t1.(markers := SkipRecords(t1.markers, data, storage, skipAt, width - effW));
      var p1, o1, y1, r1 := After(storage, p, width), o + boardWidth, y + 1, rows - 1;
      var row := MarkerRow(data, storage, p, startX, y, effW);
      var skipped := SkipMarkers(data, storage, skipAt, width - effW);
      var rest := MarkerRect(data, storage, p1, width, effW, startX, y1, r1);
      TileRowsUnfold(t, t2, data, storage, p, width, effW, o, boardWidth, startX, y, rows, p1, o1, y1, r1);
      TileRowMarkers(t, data, storage, p, o, startX, y, effW);
      SkipRecordsMarkers(t1.markers, data, storage, skipAt, width - effW);
      CapAppend(t.markers + row, skipped);
      var before := t.markers + row + skipped;
      assert t2.markers == Cap(before);
      TileRowsMarkers(t2, data, storage, p1, width, effW, o1, boardWidth, startX, y1, r1);
      CapAppend(before, rest);
      Assoc(t.markers, row, skipped);
      Assoc(t.markers, row + skipped, rest);
    }
  }

  /** Every placed marker of a row lies on one of its visible cells. */
  lemma {:induction false} MarkerRowInside(data: seq<int>, storage: StorageMode, p: int, x: int, y: int, n: nat)
    ensures forall m :: m in MarkerRow(data, storage, p, x, y, n) && m.At? ==> x <= m.x < x + n && m.y == y
    decreases n
  {
    if n > 0 {
      MarkerRowInside(data, storage, p + RecordSize(storage), x + 1, y, n - 1);
    }
  }

  lemma {:induction false} SkipMarkersNotPlaced(data: seq<int>, storage: StorageMode, p: int, n: nat)
    ensures forall m :: m in SkipMarkers(data, storage, p, n) ==> m == NotPlaced
    decreases n
  {
    if n > 0 && storage == BoardStorage {
      SkipMarkersNotPlaced(data, storage, p + 6, n - 1);
    }
  }

  /** Every placed marker lies inside the clipped rectangle; the robots of
      clipped-away columns are not placed. */
  lemma {:induction false} MarkerRectInside(data: seq<int>, storage: StorageMode, p: int, width: int, effW: nat,
                                            startX: int, y: int, rows: nat)
    requires effW <= width
    ensures forall m :: m in MarkerRect(data, storage, p, width, effW, startX, y, rows) && m.At? ==>
      startX <= m.x < startX + effW && y <= m.y < y + rows
    decreases rows
  {
    if rows > 0 {
      MarkerRowInside(data, storage, p, startX, y, effW);
      SkipMarkersNotPlaced(data, storage, After(storage, p, effW), width - effW);
      MarkerRectInside(data, storage, After(storage, p, width), width, effW, startX, y + 1, rows - 1);
    }
  }

  /** The bound robot_x_locations and robot_y_locations have: the source's
      tile loop stays inside them only when this holds. */
  predicate MarkersFit(data: seq<int>, storage: StorageMode, p: int, width: int, effW: nat,
                       startX: int, y: int, rows: nat)
    requires effW <= width
  {
    |MarkerRect(data, storage, p, width, effW, startX, y, rows)| <= RobotSlots
  }

  /** A row of robot records gives one marker per record. */
  lemma {:induction false} MarkerRowAllRobots(data: seq<int>, p: int, x: int, y: int, n: nat)
    requires 0 <= p && p + 6 * n <= |data|
    requires forall q :: 0 <= q < |data| && p <= q ==> data[q] == Robot
    ensures |MarkerRow(data, BoardStorage, p, x, y, n)| == n
    decreases n
  {
    if n > 0 {
      MarkerRowAllRobots(data, p + 6, x + 1, y, n - 1);
    }
  }

  /** Unclipped rows of robot records give one marker per record. */
  lemma {:induction false} MarkerRectAllRobots(data: seq<int>, p: int, width: nat, startX: int, y: int, rows: nat)
    requires RowsFit(|data|, 6 * width, p, 6 * width, rows)
    requires forall q :: 0 <= q < |data| && p <= q ==> data[q] == Robot
    ensures |MarkerRect(data, BoardStorage, p, width, width, startX, y, rows)| == width * rows
    decreases rows
  {
    if rows > 0 {
      MarkerRowAllRobots(data, p, startX, y, width);
      MarkerRectAllRobots(data, p + 6 * width, width, startX, y + 1, rows - 1);
      assert width * rows == width + width * (rows - 1);
    }
  }

  /** An MZM2 file of a 17 x 16 rectangle of robot records. */
  function RobotRectFile(): seq<int>
  {
    Magic2 + [17, 0, 16, 0, 0, 0, 0, 0, 0, 0, 0, 0] + seq(6 * 272, _ => Robot)
  }

  /** The file declares a 17 x 16 board-storage rectangle without robots
      and passes validation. */
  lemma RobotRectFileAccepted()
    ensures AllBytes(RobotRectFile())
    ensures ParseHeader(RobotRectFile()) == Some(Header(17, 16, 0, 0, 0, 0, V283, 16))
    ensures Accepted(ParseHeader(RobotRectFile()).value, |RobotRectFile()|)
  {
    var data := RobotRectFile();
    assert data[..4] == Magic2;
    MagicsDistinct();
  }

  /** Loading that file onto a board at least 17 x 16 notes 272 robots:
      past the end of the 256-entry location arrays. */
  lemma MarkerOverflow()
    ensures |MarkerRect(RobotRectFile(), BoardStorage, 16, 17, 17, 0, 0, 16)| == 272
    ensures !MarkersFit(RobotRectFile(), BoardStorage, 16, 17, 17, 0, 0, 16)
  {
    var data := RobotRectFile();
    assert forall q :: 0 <= q < |data| && 16 <= q ==> data[q] == Robot;
    PayloadRowsFit(|data|, 16, 6, 17, 16, 16);
    MarkerRectAllRobots(data, 16, 17, 0, 0, 16);
  }
}
