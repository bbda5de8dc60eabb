/** The tile loops of load_mzm_common (src/mzm.c) for the board target:
    they walk the clipped rectangle cell by cell, reading records from the
    memfile, and are proved to leave what MzmTiles says. The loops work on
    the board's level array (`cells`) and robot list (`slots`). */
module MzmTileLoad {
  import opened Bytes
  import opened MzmFormat
  import opened MzmBoard
  import opened MzmRect
  import opened MzmTiles
  import opened MemFiles

  /** The first byte of a board-storage record, read for column `x` of
      row `y`: a robot is noted there (up to the 256 entries the location
      arrays hold), and any other id from SENSOR up is wiped to 0. */
  method ReadRecordId(mf: MemFile, x: int, y: int, markers: seq<Marker>) returns (id: int, noted: seq<Marker>)
    requires mf.Valid() && mf.pos < |mf.data|
    modifies mf
    ensures mf.Valid() && mf.pos == old(mf.pos) + 1
    ensures id == IncomingId(ByteAt(mf.data, old(mf.pos)))
    ensures noted == NoteRecord(markers, mf.data, BoardStorage, old(mf.pos), x, y)
  {
    id := mf.GetC();
    noted := markers;
    if id >= Sensor {
      if IsRobot(id) {
        if |noted| < RobotSlots {
          noted := noted + [At(x, y)];
        }
      } else {
        id := 0;
      }
    }
  }

  /** clear_robot_id for the robot standing on cell `src`, which is about
      to be overwritten. */
  method ClearRobotId(slots: array<Option<RobotObj>>, src: Cell)
    modifies slots
    ensures slots[..] == FreedSlots(old(slots[..]), src)
  {
    if IsRobot(src.id) && 0 <= src.param < slots.Length {
      slots[src.param] := None;
    }
  }

  /** One board-storage record onto cell `o`, at column `x` of row `y`:
      the incoming id is read and noted, the robot standing on the cell
      loses its slot, and the player's cell only skips the rest of the
      record. */
  method LoadBoardRecord(cells: array<Cell>, slots: array<Option<RobotObj>>, mf: MemFile,
                         o: int, x: int, y: int, markers: seq<Marker>) returns (noted: seq<Marker>)
    requires mf.Valid() && 0 <= o < cells.Length && mf.pos + 6 <= |mf.data|
    modifies cells, slots, mf
    ensures mf.Valid() && mf.pos == old(mf.pos) + 6
    ensures cells[..] == old(cells[..])[o := StoredCell(old(cells[o]), mf.data, old(mf.pos), BoardStorage)]
    ensures slots[..] == FreedSlots(old(slots[..]), old(cells[o]))
    ensures noted == NoteRecord(markers, mf.data, BoardStorage, old(mf.pos), x, y)
  {
    var currentId;
    currentId, noted := ReadRecordId(mf, x, y, markers);
    var src := cells[o];
    ClearRobotId(slots, src);
    if src.id != Player {
      var param := mf.GetC();
      var color := mf.GetC();
      var underId := mf.GetC();
      var underParam := mf.GetC();
      var underColor := mf.GetC();
      if underId >= Sensor {
        underId, underParam, underColor := 0, 0, 7;
      }
      cells[o] := Cell(currentId, param, color, underId, underParam, underColor);
    } else {
      mf.Skip(5);
    }
  }

  /** One layer-storage record onto cell `o`: a custom block of the
      record's char and color over an empty under layer, unless the cell
      is the player's. */
  method LoadLayerRecord(cells: array<Cell>, slots: array<Option<RobotObj>>, mf: MemFile, o: int)
    requires mf.Valid() && 0 <= o < cells.Length && mf.pos + 2 <= |mf.data|
    modifies cells, slots, mf
    ensures mf.Valid() && mf.pos == old(mf.pos) + 2
    ensures cells[..] == old(cells[..])[o := StoredCell(old(cells[o]), mf.data, old(mf.pos), LayerStorage)]
    ensures slots[..] == FreedSlots(old(slots[..]), old(cells[o]))
  {
    var src := cells[o];
    ClearRobotId(slots, src);
    if src.id != Player {
      var param := mf.GetC();
      var color := mf.GetC();
      cells[o] := Cell(CustomBlock, param, color, 0, 0, 0);
    } else {
      mf.Skip(2);
    }
  }

  /** The next record of a row, moving what is left of the row on by one
      cell. */
  method LoadRowCell(cells: array<Cell>, slots: array<Option<RobotObj>>, mf: MemFile, storage: StorageMode,
                     o: int, x: int, y: int, n: nat, markers: seq<Marker>, ghost whole: Tiles)
    returns (noted: seq<Marker>)
    requires mf.Valid() && 0 <= o && o + n <= cells.Length && n > 0
    requires mf.pos + RecordSize(storage) <= |mf.data|
    requires TileRow(Tiles(cells[..], slots[..], markers), mf.data, storage, mf.pos, o, x, y, n) == whole
    modifies cells, slots, mf
    ensures mf.Valid() && mf.pos == old(mf.pos) + RecordSize(storage)
    ensures TileRow(Tiles(cells[..], slots[..], noted), mf.data, storage, mf.pos, o + 1, x + 1, y, n - 1) == whole
  {
    ghost var t := Tiles(cells[..], slots[..], markers);
    ghost var q := mf.pos;
    CellStepParts(t, mf.data, storage, q, o, x, y);
    if storage == BoardStorage {
      noted := LoadBoardRecord(cells, slots, mf, o, x, y, markers);
    } else {
      LoadLayerRecord(cells, slots, mf, o);
      noted := markers;
    }
    TileRowStep(t, Tiles(cells[..], slots[..], noted), mf.data, storage, q, o, x, y, n, whole);
  }

  /** The `n` visible records of a row onto the cells from `o` on. */
  method LoadTileRow(cells: array<Cell>, slots: array<Option<RobotObj>>, mf: MemFile, storage: StorageMode,
                     o: int, x: int, y: int, n: nat, markers: seq<Marker>) returns (noted: seq<Marker>)
    requires mf.Valid() && 0 <= o && o + n <= cells.Length
    requires After(storage, mf.pos, n) <= |mf.data|
    modifies cells, slots, mf
    ensures mf.Valid() && mf.pos == After(storage, old(mf.pos), n)
    ensures Tiles(cells[..], slots[..], noted) ==
      TileRow(Tiles(old(cells[..]), old(slots[..]), markers), mf.data, storage, old(mf.pos), o, x, y, n)
  {
    ghost var whole := TileRow(Tiles(cells[..], slots[..], markers), mf.data, storage, mf.pos, o, x, y, n);
    noted := markers;
    var offset, col := o, x;
    var left: nat := n;
    while left > 0
      invariant 0 <= offset && offset + left <= cells.Length && mf.Valid()
      invariant After(storage, mf.pos, left) == After(storage, old(mf.pos), n)
      invariant TileRow(Tiles(cells[..], slots[..], noted), mf.data, storage, mf.pos, offset, col, y, left) == whole
    {
      noted := LoadRowCell(cells, slots, mf, storage, offset, col, y, left, noted, whole);
      offset, col, left := offset + 1, col + 1, left - 1;
    }
  }

  /** The `n` clipped-away board-storage records after a row: each robot
      among them is noted as not placed. */
  method SkipBoardRecords(mf: MemFile, n: nat, markers: seq<Marker>) returns (noted: seq<Marker>)
    requires mf.Valid() && mf.pos + 6 * n <= |mf.data|
    modifies mf
    ensures mf.Valid() && mf.pos == old(mf.pos) + 6 * n
    ensures noted == SkipRecords(markers, mf.data, BoardStorage, old(mf.pos), n)
  {
    ghost var p0 := mf.pos;
    noted := markers;
    var i := 0;
    while i < n
      invariant 0 <= i <= n && mf.Valid() && mf.pos == p0 + 6 * i
      invariant SkipRecords(noted, mf.data, BoardStorage, mf.pos, n - i) ==
        SkipRecords(markers, mf.data, BoardStorage, p0, n)
    {
      var currentId := mf.GetC();
      mf.Skip(5);
      if IsRobot(currentId) && |noted| < RobotSlots {
        noted := noted + [NotPlaced];
      }
      i := i + 1;
    }
  }

  /** The `n` clipped-away records after a row: board storage reads them
      for robots, layer storage jumps over them. */
  method SkipTail(mf: MemFile, storage: StorageMode, n: nat, markers: seq<Marker>) returns (noted: seq<Marker>)
    requires mf.Valid() && After(storage, mf.pos, n) <= |mf.data|
    modifies mf
    ensures mf.Valid() && mf.pos == After(storage, old(mf.pos), n)
    ensures noted == SkipRecords(markers, mf.data, storage, old(mf.pos), n)
  {
    if storage == BoardStorage {
      noted := SkipBoardRecords(mf, n, markers);
    } else {
      var fileLineSkip := n * 2;
      mf.Skip(fileLineSkip);
      noted := markers;
    }
  }

  /** One file row: its visible records, then the clipped-away rest,
      which board storage reads for robots and layer storage jumps; what
      is left of the rectangle moves on by one row. */
  method LoadTileLine(cells: array<Cell>, slots: array<Option<RobotObj>>, mf: MemFile, storage: StorageMode,
                      boardWidth: int, width: nat, effW: nat, o: int, startX: int, y: int, rows: nat,
                      markers: seq<Marker>, ghost whole: Tiles) returns (noted: seq<Marker>)
    requires mf.Valid() && effW <= width && rows > 0
    requires RowsFit(cells.Length, boardWidth, o, effW, rows)
    requires RowsFit(|mf.data|, RecordSize(storage) * width, mf.pos, RecordSize(storage) * width, rows)
    requires TileRows(Tiles(cells[..], slots[..], markers), mf.data, storage, mf.pos, width, effW,
                      o, boardWidth, startX, y, rows) == whole
    modifies cells, slots, mf
    ensures mf.Valid()
    ensures RowsFit(cells.Length, boardWidth, o + boardWidth, effW, rows - 1)
    ensures RowsFit(|mf.data|, RecordSize(storage) * width, mf.pos, RecordSize(storage) * width, rows - 1)
    ensures TileRows(Tiles(cells[..], slots[..], noted), mf.data, storage, mf.pos, width, effW,
                     o + boardWidth, boardWidth, startX, y + 1, rows - 1) == whole
  {
    ghost var t := Tiles(cells[..], slots[..], markers);
    ghost var p := mf.pos;
    AfterSplit(storage, p, effW, width);
    noted := LoadTileRow(cells, slots, mf, storage, o, startX, y, effW, markers);
    noted := SkipTail(mf, storage, width - effW, noted);
    TileRowsStep(t, Tiles(cells[..], slots[..], noted), mf.data, storage, p, width, effW,
                 o, boardWidth, startX, y, rows, whole);
  }

  /** `rows` file rows onto the cells from `o` on, one board row apart. */
  method LoadTileRect(cells: array<Cell>, slots: array<Option<RobotObj>>, mf: MemFile, storage: StorageMode,
                      boardWidth: int, width: nat, effW: nat, o: int, startX: int, y: int, rows: nat)
    returns (noted: seq<Marker>)
    requires mf.Valid() && effW <= width
    requires RowsFit(cells.Length, boardWidth, o, effW, rows)
    requires RowsFit(|mf.data|, RecordSize(storage) * width, mf.pos, RecordSize(storage) * width, rows)
    modifies cells, slots, mf
    ensures mf.Valid()
    ensures Tiles(cells[..], slots[..], noted) ==
      TileRows(Tiles(old(cells[..]), old(slots[..]), []), mf.data, storage, old(mf.pos), width, effW,
               o, boardWidth, startX, y, rows)
  {
    ghost var whole := TileRows(Tiles(cells[..], slots[..], []), mf.data, storage, mf.pos, width, effW,
                                o, boardWidth, startX, y, rows);
    noted := [];
    var offset, row := o, y;
    var left: nat := rows;
    while left > 0
      invariant mf.Valid()
      invariant RowsFit(cells.Length, boardWidth, offset, effW, left)
      invariant RowsFit(|mf.data|, RecordSize(storage) * width, mf.pos, RecordSize(storage) * width, left)
      invariant TileRows(Tiles(cells[..], slots[..], noted), mf.data, storage, mf.pos, width, effW,
                         offset, boardWidth, startX, row, left) == whole
    {
      noted := LoadTileLine(cells, slots, mf, storage, boardWidth, width, effW, offset, startX, row, left,
                            noted, whole);
      offset, row, left := offset + boardWidth, row + 1, left - 1;
    }
  }

  /** The board target: the clipped `effW` x `effH` part of a rectangle
      `width` records wide, read from the cursor on, onto the board at
      (startX, startY); the markers noted are the robots' places. */
  method LoadTilesToBoard(b: Board, mf: MemFile, storage: StorageMode, width: nat, effW: nat, effH: nat,
                          startX: int, startY: int) returns (noted: seq<Marker>)
    requires b.Valid() && mf.Valid() && effW <= width
    requires 0 <= startX && startX + effW <= b.width && 0 <= startY && startY + effH <= b.height
    requires mf.pos + RecordSize(storage) * (width * effH) <= |mf.data|
    modifies b.cells, b.robotList, mf
    ensures mf.Valid()
    ensures RowsFit(b.cells.Length, b.width, startX + startY * b.width, effW, effH)
    ensures Tiles(b.cells[..], b.robotList[..], noted) ==
      TileRows(Tiles(old(b.cells[..]), old(b.robotList[..]), []), mf.data, storage, old(mf.pos), width, effW,
               startX + startY * b.width, b.width, startX, startY, effH)
  {
    RectRowsFit(b.width, b.height, startX, startY, effW, effH);
    PayloadRowsFit(|mf.data|, mf.pos, RecordSize(storage), width, effH, effH);
    var offset := startX + startY * b.width;
    noted := LoadTileRect(b.cells, b.robotList, mf, storage, b.width, width, effW, offset, startX, startY, effH);
  }
}
