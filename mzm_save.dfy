/** Saving a rectangle of a board, its overlay or the vlayer as an MZM
    (save_mzm_calculate_size, save_mzm_common, save_mzm in src/mzm.c). */
module MzmSave {
  import opened Bytes
  import opened MzmFormat
  import opened MzmBoard
  import opened MemFiles
  import opened MzmRect

  // ---------------------------------------------------------------------
  // The size computed before anything is written

  predicate InRect(r: RobotObj, startX: int, startY: int, width: int, height: int)
  {
    startX <= r.xpos < startX + width && startY <= r.ypos < startY + height
  }

  /** The robots of the name-sorted list that stand inside the rectangle,
      in list order; NULL entries are passed over. */
  function RobotsInRect(list: seq<Option<RobotObj>>, startX: int, startY: int, width: int, height: int)
    : (r: seq<RobotObj>)
    ensures |r| <= |list|
    ensures forall k :: 0 <= k < |r| ==> InRect(r[k], startX, startY, width, height)
  {
    if |list| == 0 then []
    else
      var last := list[|list| - 1];
      RobotsInRect(list[..|list| - 1], startX, startY, width, height) +
        (if last.Some? && InRect(last.value, startX, startY, width, height) then [last.value] else [])
  }

  function SizeSum(robots: seq<RobotObj>, robotSize: RobotObj -> nat): nat
  {
    if |robots| == 0 then 0 else SizeSum(robots[..|robots| - 1], robotSize) + robotSize(robots[|robots| - 1])
  }

  /** Header and tile bytes of a `width` x `height` rectangle. */
  function TileEnd(width: int, height: int, storage: StorageMode): int
  {
    HeaderSize + Stride(StorageByte(storage)) * (width * height)
  }

  /** What save_mzm_calculate_size computes: header and tiles, and for a
      board-to-board save the saved size of every robot standing in the
      rectangle plus the archive overhead for that many entries, when
      there is at least one. `robotSize` stands for save_robot's size at
      the save's savegame flag, `zipOverhead` for the archive's bound on
      its headers for entries with three-character names. */
  function MzmSize(list: seq<Option<RobotObj>>, startX: int, startY: int, width: int, height: int,
                   mode: SaveMode, robotSize: RobotObj -> nat, zipOverhead: nat -> nat): int
  {
    var robots := RobotsInRect(list, startX, startY, width, height);
    TileEnd(width, height, StorageFor(mode)) +
      if mode != BoardToBoard then 0
      else SizeSum(robots, robotSize) + if |robots| > 0 then zipOverhead(|robots|) else 0
  }

  /** The computed size covers the header and the tiles, and is exactly
      that when nothing but tiles is saved. */
  lemma MzmSizeCoversTiles(list: seq<Option<RobotObj>>, startX: int, startY: int, width: int, height: int,
                           mode: SaveMode, robotSize: RobotObj -> nat, zipOverhead: nat -> nat)
    ensures MzmSize(list, startX, startY, width, height, mode, robotSize, zipOverhead) >=
      TileEnd(width, height, StorageFor(mode))
    ensures mode != BoardToBoard || RobotsInRect(list, startX, startY, width, height) == [] ==>
      MzmSize(list, startX, startY, width, height, mode, robotSize, zipOverhead) ==
        TileEnd(width, height, StorageFor(mode))
  {
  }

  lemma RobotsInRectStep(list: seq<Option<RobotObj>>, i: int, startX: int, startY: int, width: int, height: int,
                          robotSize: RobotObj -> nat)
    requires 0 <= i < |list|
    ensures RobotsInRect(list[..i + 1], startX, startY, width, height) ==
      RobotsInRect(list[..i], startX, startY, width, height) +
        (if list[i].Some? && InRect(list[i].value, startX, startY, width, height) then [list[i].value] else [])
    ensures SizeSum(RobotsInRect(list[..i + 1], startX, startY, width, height), robotSize) ==
      SizeSum(RobotsInRect(list[..i], startX, startY, width, height), robotSize) +
        (if list[i].Some? && InRect(list[i].value, startX, startY, width, height) then robotSize(list[i].value) else 0)
  {
    assert list[..i + 1][..i] == list[..i];
    var before := RobotsInRect(list[..i], startX, startY, width, height);
    if list[i].Some? && InRect(list[i].value, startX, startY, width, height) {
      assert (before + [list[i].value])[..|before|] == before;
    } else {
      assert before + [] == before;
    }
  }

  /** save_mzm_calculate_size */
  method CalculateSize(b: Board, startX: int, startY: int, width: int, height: int, mode: SaveMode,
                       robotSize: RobotObj -> nat, zipOverhead: nat -> nat)
    returns (size: int, storage: StorageMode)
    ensures storage == StorageFor(mode)
    ensures size == MzmSize(b.robotsByName, startX, startY, width, height, mode, robotSize, zipOverhead)
  {
    storage := if mode != BoardToBoard then LayerStorage else BoardStorage;
    size := HeaderSize;
    size := size + (width * height) * (if storage == LayerStorage then 2 else 6);
    assert size == TileEnd(width, height, storage);
    if mode == BoardToBoard {
      var list := b.robotsByName;
      var count := 0;
      var i := 0;
      while i < |list|
        invariant 0 <= i <= |list|
        invariant count == |RobotsInRect(list[..i], startX, startY, width, height)|
        invariant size == TileEnd(width, height, storage) +
          SizeSum(RobotsInRect(list[..i], startX, startY, width, height), robotSize)
      {
        RobotsInRectStep(list, i, startX, startY, width, height, robotSize);
        if list[i].Some? {
          var robot := list[i].value;
          if robot.xpos >= startX && robot.xpos < startX + width &&
             robot.ypos >= startY && robot.ypos < startY + height {
            size := size + robotSize(robot);
            count := count + 1;
          }
        }
        i := i + 1;
      }
      assert list[..i] == list;
      if count > 0 {
        size := size + zipOverhead(count);
      }
    }
  }

  // ---------------------------------------------------------------------
  // The tile payload

  /** The record a board-to-board save writes for a cell: a robot keeps
      its id with param 0 (its slot is recorded instead); a sensor, sign,
      scroll or the player becomes a custom block showing the char and
      color it was displayed with; anything else is copied. */
  function SavedCell(c: Cell, ch: int, co: int): (r: Cell)
    ensures r.id != Sensor && !IsSignScroll(r.id) && r.id != Player
    ensures !IsRobot(c.id) && c.id != Sensor && !IsSignScroll(c.id) && c.id != Player ==> r == c
    ensures IsRobot(c.id) ==> r == c.(param := 0)
    ensures !IsRobot(c.id) && (c.id == Sensor || IsSignScroll(c.id) || c.id == Player) ==>
      r == c.(id := CustomBlock, param := ch, color := co)
    ensures r.underId == c.underId && r.underParam == c.underParam && r.underColor == c.underColor
  {
    if IsRobot(c.id) then c.(param := 0)
    else if c.id == Sensor || IsSignScroll(c.id) || c.id == Player then
      c.(id := CustomBlock, param := ch, color := co)
    else c
  }

  /** The six bytes of a board-storage record. */
  function CellBytes(c: Cell): (r: seq<int>)
    ensures |r| == 6 && AllBytes(r)
  {
    [Low8(c.id), Low8(c.param), Low8(c.color), Low8(c.underId), Low8(c.underParam), Low8(c.underColor)]
  }

  /** The two bytes of a layer-storage record. */
  function GlyphBytes(g: Glyph): (r: seq<int>)
    ensures |r| == 2 && AllBytes(r)
  {
    [Low8(g.ch), Low8(g.color)]
  }

  /** The first `n` records of the row whose first cell is at `o`. */
  function SavedRow(cells: seq<Cell>, chars: seq<int>, colors: seq<int>, o: int, n: nat): (r: seq<int>)
    ensures |r| == 6 * n && AllBytes(r)
  {
    if n == 0 then []
    else
      SavedRow(cells, chars, colors, o, n - 1) +
      CellBytes(SavedCell(CellAt(cells, o + n - 1), ByteAt(chars, o + n - 1), ByteAt(colors, o + n - 1)))
  }

  /** The board-storage payload of `rows` rows of a rectangle `width`
      wide whose top-left cell is at `o` in a board `boardWidth` wide. */
  function SavedBoardPayload(cells: seq<Cell>, chars: seq<int>, colors: seq<int>, boardWidth: int,
                             o: int, width: nat, rows: nat): (r: seq<int>)
    ensures AllBytes(r)
    decreases rows
  {
    if rows == 0 then []
    else
      SavedRow(cells, chars, colors, o, width) +
      SavedBoardPayload(cells, chars, colors, boardWidth, o + boardWidth, width, rows - 1)
  }

  /** The slots of the robot cells among the first `n` of a row. */
  function RowRobots(cells: seq<Cell>, o: int, n: nat): seq<int>
  {
    if n == 0 then []
    else
      RowRobots(cells, o, n - 1) +
      (if IsRobot(CellAt(cells, o + n - 1).id) then [CellAt(cells, o + n - 1).param] else [])
  }

  /** The slots of the robot cells of a rectangle in row-major order. */
  function RegionRobots(cells: seq<Cell>, boardWidth: int, o: int, width: nat, rows: nat): seq<int>
    decreases rows
  {
    if rows == 0 then []
    else RowRobots(cells, o, width) + RegionRobots(cells, boardWidth, o + boardWidth, width, rows - 1)
  }

  /** The first `n` records of a layer row whose first cell is at `o`. */
  function LayerRow(glyphs: seq<Glyph>, o: int, n: nat): (r: seq<int>)
    ensures |r| == 2 * n && AllBytes(r)
  {
    if n == 0 then []
    else LayerRow(glyphs, o, n - 1) + GlyphBytes(GlyphAt(glyphs, o + n - 1))
  }

  /** The layer-storage payload of `rows` rows of a rectangle `width`
      wide whose top-left cell is at `o` in a layer `layerWidth` wide. */
  function LayerPayload(glyphs: seq<Glyph>, layerWidth: int, o: int, width: nat, rows: nat): (r: seq<int>)
    ensures AllBytes(r)
    decreases rows
  {
    if rows == 0 then []
    else LayerRow(glyphs, o, width) + LayerPayload(glyphs, layerWidth, o + layerWidth, width, rows - 1)
  }

  /** Six bytes for every cell of the rectangle. */
  lemma {:induction false} SavedBoardPayloadLength(cells: seq<Cell>, chars: seq<int>, colors: seq<int>,
                                                   boardWidth: int, o: int, width: nat, rows: nat)
    ensures |SavedBoardPayload(cells, chars, colors, boardWidth, o, width, rows)| == 6 * (width * rows)
    decreases rows
  {
    if rows > 0 {
      SavedBoardPayloadLength(cells, chars, colors, boardWidth, o + boardWidth, width, rows - 1);
      assert width * rows == width + width * (rows - 1);
    }
  }

  /** Two bytes for every cell of the rectangle. */
  lemma {:induction false} LayerPayloadLength(glyphs: seq<Glyph>, layerWidth: int, o: int, width: nat, rows: nat)
    ensures |LayerPayload(glyphs, layerWidth, o, width, rows)| == 2 * (width * rows)
    decreases rows
  {
    if rows > 0 {
      LayerPayloadLength(glyphs, layerWidth, o + layerWidth, width, rows - 1);
      assert width * rows == width + width * (rows - 1);
    }
  }

  /** What the board shows at each cell, from get_id_char/get_id_color. */
  function Shown(chars: seq<int>, colors: seq<int>): (r: seq<Glyph>)
    ensures |r| == |chars|
    ensures forall k :: 0 <= k < |r| ==> r[k] == Glyph(chars[k], ByteAt(colors, k))
  {
    seq(|chars|, k requires 0 <= k < |chars| => Glyph(chars[k], ByteAt(colors, k)))
  }

  /** One board-storage record for a cell shown as `ch` in color `co`. */
  method WriteSavedCell(mf: MemWriter, c: Cell, ch: int, co: int)
    requires mf.Valid() && mf.pos + 6 <= mf.buf.Length
    modifies mf, mf.buf
    ensures mf.Valid() && mf.pos == old(mf.pos) + 6
    ensures mf.buf[..mf.pos] == old(mf.buf[..mf.pos]) + CellBytes(SavedCell(c, ch, co))
  {
    if IsRobot(c.id) {
      mf.Write(CellBytes(c.(param := 0)));
    } else if c.id == Sensor || IsSignScroll(c.id) || c.id == Player {
      mf.Write(CellBytes(c.(id := CustomBlock, param := ch, color := co)));
    } else {
      mf.Write(CellBytes(c));
    }
  }

  /** The records of one row of a board-to-board save, and the slots of
      its robots. */
  method WriteBoardRow(mf: MemWriter, cells: seq<Cell>, chars: seq<int>, colors: seq<int>, o: int, width: int)
    returns (robotNumbers: seq<int>)
    requires mf.Valid() && 0 <= o && 0 <= width && o + width <= |cells|
    requires |chars| == |cells| && |colors| == |cells|
    requires mf.pos + 6 * width <= mf.buf.Length
    modifies mf, mf.buf
    ensures mf.Valid() && mf.pos == old(mf.pos) + 6 * width
    ensures mf.buf[..mf.pos] == old(mf.buf[..mf.pos]) + SavedRow(cells, chars, colors, o, width)
    ensures robotNumbers == RowRobots(cells, o, width)
  {
    ghost var before := mf.buf[..mf.pos];
    ghost var p0 := mf.pos;
    robotNumbers := [];
    var x := 0;
    while x < width
      invariant 0 <= x <= width && mf.Valid() && mf.pos == p0 + 6 * x
      invariant mf.buf[..mf.pos] == before + SavedRow(cells, chars, colors, o, x)
      invariant robotNumbers == RowRobots(cells, o, x)
    {
      var c := cells[o + x];
      if IsRobot(c.id) {
        robotNumbers := robotNumbers + [c.param];
      }
      WriteSavedCell(mf, c, chars[o + x], colors[o + x]);
      x := x + 1;
    }
  }

  /** Writing the first row of a board payload leaves the payload of the
      rows below it to write, and the robots of the rows below to meet. */
  lemma SavedPayloadFirstRow(written: seq<int>, met: seq<int>, cells: seq<Cell>, chars: seq<int>, colors: seq<int>,
                             boardWidth: int, o: int, width: nat, rows: nat)
    requires rows > 0
    ensures written + SavedBoardPayload(cells, chars, colors, boardWidth, o, width, rows) ==
      (written + SavedRow(cells, chars, colors, o, width)) +
      SavedBoardPayload(cells, chars, colors, boardWidth, o + boardWidth, width, rows - 1)
    ensures met + RegionRobots(cells, boardWidth, o, width, rows) ==
      (met + RowRobots(cells, o, width)) + RegionRobots(cells, boardWidth, o + boardWidth, width, rows - 1)
  {
  }

  /** The first of `rows` rows of a board payload, leaving the others;
      the slots of its robots are added to those met so far. */
  method WriteBoardPayloadRow(mf: MemWriter, cells: seq<Cell>, chars: seq<int>, colors: seq<int>,
                              boardWidth: int, o: int, width: int, ghost rows: nat, met: seq<int>)
    returns (robotNumbers: seq<int>)
    requires mf.Valid() && 0 <= o && 0 <= width && o + width <= |cells| && rows > 0
    requires |chars| == |cells| && |colors| == |cells|
    requires mf.pos + |SavedBoardPayload(cells, chars, colors, boardWidth, o, width, rows)| <= mf.buf.Length
    modifies mf, mf.buf
    ensures mf.Valid()
    ensures mf.buf[..mf.pos] + SavedBoardPayload(cells, chars, colors, boardWidth, o + boardWidth, width, rows - 1) ==
      old(mf.buf[..mf.pos]) + SavedBoardPayload(cells, chars, colors, boardWidth, o, width, rows)
    ensures robotNumbers + RegionRobots(cells, boardWidth, o + boardWidth, width, rows - 1) ==
      met + RegionRobots(cells, boardWidth, o, width, rows)
  {
    SavedPayloadFirstRow(mf.buf[..mf.pos], met, cells, chars, colors, boardWidth, o, width, rows);
    var row := WriteBoardRow(mf, cells, chars, colors, o, width);
    robotNumbers := met + row;
  }

  /** The records of a board-to-board save of `height` rows `width` wide
      from `o` on, and the robot slots met, in row-major order. */
  method WriteBoardTiles(mf: MemWriter, cells: seq<Cell>, chars: seq<int>, colors: seq<int>,
                         boardWidth: int, o: int, width: int, height: int)
    returns (robotNumbers: seq<int>)
    requires mf.Valid() && 0 <= width && 0 <= height && RowsFit(|cells|, boardWidth, o, width, height)
    requires |chars| == |cells| && |colors| == |cells|
    requires mf.pos + |SavedBoardPayload(cells, chars, colors, boardWidth, o, width, height)| <= mf.buf.Length
    modifies mf, mf.buf
    ensures mf.Valid()
    ensures mf.buf[..mf.pos] == old(mf.buf[..mf.pos]) + SavedBoardPayload(cells, chars, colors, boardWidth, o, width, height)
    ensures robotNumbers == RegionRobots(cells, boardWidth, o, width, height)
  {
    ghost var whole := old(mf.buf[..mf.pos]) + SavedBoardPayload(cells, chars, colors, boardWidth, o, width, height);
    ghost var wholeRobots := RegionRobots(cells, boardWidth, o, width, height);
    var offset := o;
    robotNumbers := [];
    var y := 0;
    while y < height
      invariant 0 <= y <= height && mf.Valid() && RowsFit(|cells|, boardWidth, offset, width, height - y)
      invariant mf.buf[..mf.pos] + SavedBoardPayload(cells, chars, colors, boardWidth, offset, width, height - y) == whole
      invariant robotNumbers + RegionRobots(cells, boardWidth, offset, width, height - y) == wholeRobots
    {
      robotNumbers := WriteBoardPayloadRow(mf, cells, chars, colors, boardWidth, offset, width, height - y, robotNumbers);
      offset := offset + boardWidth;
      y := y + 1;
    }
    assert mf.buf[..mf.pos] + [] == mf.buf[..mf.pos];
    assert robotNumbers + [] == robotNumbers;
  }

  /** The records of one row of a layer-storage save. */
  method WriteLayerRow(mf: MemWriter, glyphs: seq<Glyph>, o: int, width: int)
    requires mf.Valid() && 0 <= o && 0 <= width && o + width <= |glyphs|
    requires mf.pos + 2 * width <= mf.buf.Length
    modifies mf, mf.buf
    ensures mf.Valid() && mf.pos == old(mf.pos) + 2 * width
    ensures mf.buf[..mf.pos] == old(mf.buf[..mf.pos]) + LayerRow(glyphs, o, width)
  {
    ghost var before := mf.buf[..mf.pos];
    ghost var p0 := mf.pos;
    var x := 0;
    while x < width
      invariant 0 <= x <= width && mf.Valid() && mf.pos == p0 + 2 * x
      invariant mf.buf[..mf.pos] == before + LayerRow(glyphs, o, x)
    {
      mf.Write(GlyphBytes(glyphs[o + x]));
      x := x + 1;
    }
  }

  /** Writing the first row of a layer payload leaves the payload of the
      rows below it to write. */
  lemma LayerPayloadFirstRow(written: seq<int>, glyphs: seq<Glyph>, layerWidth: int, o: int, width: nat, rows: nat)
    requires rows > 0
    ensures written + LayerPayload(glyphs, layerWidth, o, width, rows) ==
      (written + LayerRow(glyphs, o, width)) + LayerPayload(glyphs, layerWidth, o + layerWidth, width, rows - 1)
  {
  }

  /** The first of `rows` rows of a layer payload, leaving the others. */
  method WriteLayerPayloadRow(mf: MemWriter, glyphs: seq<Glyph>, layerWidth: int, o: int, width: int, ghost rows: nat)
    requires mf.Valid() && 0 <= o && 0 <= width && o + width <= |glyphs| && rows > 0
    requires mf.pos + |LayerPayload(glyphs, layerWidth, o, width, rows)| <= mf.buf.Length
    modifies mf, mf.buf
    ensures mf.Valid()
    ensures mf.buf[..mf.pos] + LayerPayload(glyphs, layerWidth, o + layerWidth, width, rows - 1) ==
      old(mf.buf[..mf.pos]) + LayerPayload(glyphs, layerWidth, o, width, rows)
  {
    LayerPayloadFirstRow(mf.buf[..mf.pos], glyphs, layerWidth, o, width, rows);
    WriteLayerRow(mf, glyphs, o, width);
  }

  /** The records of an overlay, vlayer or board-to-layer save of `height`
      rows `width` wide from `o` on. */
  method WriteLayerTiles(mf: MemWriter, glyphs: seq<Glyph>, layerWidth: int, o: int, width: int, height: int)
    requires mf.Valid() && 0 <= width && 0 <= height && RowsFit(|glyphs|, layerWidth, o, width, height)
    requires mf.pos + |LayerPayload(glyphs, layerWidth, o, width, height)| <= mf.buf.Length
    modifies mf, mf.buf
    ensures mf.Valid()
    ensures mf.buf[..mf.pos] == old(mf.buf[..mf.pos]) + LayerPayload(glyphs, layerWidth, o, width, height)
  {
    ghost var whole := old(mf.buf[..mf.pos]) + LayerPayload(glyphs, layerWidth, o, width, height);
    var offset := o;
    var y := 0;
    while y < height
      invariant 0 <= y <= height && mf.Valid() && RowsFit(|glyphs|, layerWidth, offset, width, height - y)
      invariant mf.buf[..mf.pos] + LayerPayload(glyphs, layerWidth, offset, width, height - y) == whole
    {
      WriteLayerPayloadRow(mf, glyphs, layerWidth, offset, width, height - y);
      offset := offset + layerWidth;
      y := y + 1;
    }
    assert mf.buf[..mf.pos] + [] == mf.buf[..mf.pos];
  }

  // ---------------------------------------------------------------------
  // The header

  /** The header's three groups of fields, as one sequence. */
  lemma SavedHeaderFields(width: int, height: int, storage: StorageMode)
    ensures (Magic3 + WordBytes(width) + WordBytes(height)) + (DwordBytes(0) + [0, StorageByte(storage), 0]) +
      (WordBytes(MzxVersion) + [0, 0, 0]) == SavedHeader(width, height, storage)
  {
    assert DwordBytes(0) == [0, 0, 0, 0];
  }

  /** The magic and the dimensions. */
  method PutMagicAndSize(mf: MemWriter, width: int, height: int)
    requires mf.Valid() && mf.pos + 8 <= mf.buf.Length
    modifies mf, mf.buf
    ensures mf.Valid() && mf.pos == old(mf.pos) + 8
    ensures mf.buf[..mf.pos] == old(mf.buf[..mf.pos]) + (Magic3 + WordBytes(width) + WordBytes(height))
  {
    mf.Write(Magic3);
    mf.PutW(width);
    mf.PutW(height);
  }

  /** Zero robot offset and count, the storage mode, zero savegame mode. */
  method PutRobotPlaceholders(mf: MemWriter, storage: StorageMode)
    requires mf.Valid() && mf.pos + 7 <= mf.buf.Length
    modifies mf, mf.buf
    ensures mf.Valid() && mf.pos == old(mf.pos) + 7
    ensures mf.buf[..mf.pos] == old(mf.buf[..mf.pos]) + (DwordBytes(0) + [0, StorageByte(storage), 0])
  {
    mf.PutD(0);
    mf.PutC(0);
    mf.PutC(StorageByte(storage));
    mf.PutC(0);
    assert [Low8(0)] + [Low8(StorageByte(storage))] + [Low8(0)] == [0, StorageByte(storage), 0];
  }

  /** The version and three reserved bytes. */
  method PutVersion(mf: MemWriter)
    requires mf.Valid() && mf.pos + 5 <= mf.buf.Length
    modifies mf, mf.buf
    ensures mf.Valid() && mf.pos == old(mf.pos) + 5
    ensures mf.buf[..mf.pos] == old(mf.buf[..mf.pos]) + (WordBytes(MzxVersion) + [0, 0, 0])
  {
    mf.PutW(MzxVersion);
    mf.PutC(0);
    mf.PutC(0);
    mf.PutC(0);
    assert [Low8(0)] + [Low8(0)] + [Low8(0)] == [0, 0, 0];
  }

  /** The header written first, with the robot fields still zero. */
  method WriteHeader(mf: MemWriter, width: int, height: int, storage: StorageMode)
    requires mf.Valid() && mf.pos == 0 && mf.buf.Length >= HeaderSize
    modifies mf, mf.buf
    ensures mf.Valid() && mf.pos == HeaderSize
    ensures mf.buf[..HeaderSize] == SavedHeader(width, height, storage)
  {
    PutMagicAndSize(mf, width, height);
    PutRobotPlaceholders(mf, storage);
    PutVersion(mf);
    SavedHeaderFields(width, height, storage);
  }

  /** Going back to byte 8 to record where the robots start, how many
      there are and whether they are saved as runtime state; the storage
      mode byte in between is stepped over. */
  method PatchRobotFields(mf: MemWriter, tablePosition: int, numRobots: int, savegame: int)
    requires mf.Valid() && mf.buf.Length >= HeaderSize
    modifies mf, mf.buf
    ensures mf.Valid() && mf.pos == 15
    ensures mf.buf[..HeaderSize] == PatchedHeader(old(mf.buf[..HeaderSize]), tablePosition, numRobots, savegame)
    ensures mf.buf[HeaderSize..] == old(mf.buf[HeaderSize..])
  {
    ghost var before := mf.buf[..];
    mf.SeekSet(8);
    mf.PutD(tablePosition);
    ghost var offsetPut := mf.buf[..];
    assert forall k :: 0 <= k < 8 ==> offsetPut[k] == offsetPut[..12][k] == before[k];
    assert forall k :: 8 <= k < 12 ==> offsetPut[k] == offsetPut[..12][k] == DwordBytes(tablePosition)[k - 8];
    assert forall k :: 12 <= k < |before| ==> offsetPut[k] == offsetPut[12..][k - 12] == before[k];
    mf.PutC(numRobots);
    mf.Skip(1);
    mf.PutC(savegame);
    assert mf.buf[..] == offsetPut[12 := Low8(numRobots)][14 := Low8(savegame)];
    assert mf.buf[..HeaderSize] == PatchedHeader(before[..HeaderSize], tablePosition, numRobots, savegame);
    assert mf.buf[HeaderSize..] == before[HeaderSize..];
  }

  // ---------------------------------------------------------------------
  // save_mzm_common

  /** The area a save mode reads from: the vlayer, or the board. */
  predicate InsideSource(b: Board, world: World, mode: SaveMode, startX: int, startY: int, width: int, height: int)
  {
    0 <= startX && 0 <= width && 0 <= startY && 0 <= height &&
    if mode == VlayerToLayer then startX + width <= world.vlayerWidth && startY + height <= world.vlayerHeight
    else startX + width <= b.width && startY + height <= b.height
  }

  /** The board-storage tiles after the header, and the header's robot
      fields when robot cells were met. */
  method SaveBoardTiles(b: Board, startX: int, startY: int, width: int, height: int, savegame: int,
                        chars: seq<int>, colors: seq<int>, mf: MemWriter)
    returns (tableStart: int, robotNumbers: seq<int>)
    requires b.Valid() && mf.Valid() && mf.pos == HeaderSize
    requires |chars| == b.cells.Length && |colors| == b.cells.Length
    requires 0 <= startX && 0 <= width && startX + width <= b.width
    requires 0 <= startY && 0 <= height && startY + height <= b.height
    requires mf.buf.Length >= TileEnd(width, height, BoardStorage)
    modifies mf, mf.buf
    ensures mf.Valid() && tableStart == TileEnd(width, height, BoardStorage)
    ensures robotNumbers == RegionRobots(b.cells[..], b.width, startX + startY * b.width, width, height)
    ensures mf.buf[..HeaderSize] ==
      if robotNumbers == [] then old(mf.buf[..HeaderSize])
      else PatchedHeader(old(mf.buf[..HeaderSize]), tableStart, |robotNumbers|, savegame)
    ensures mf.buf[HeaderSize..tableStart] ==
      SavedBoardPayload(b.cells[..], chars, colors, b.width, startX + startY * b.width, width, height)
  {
    tableStart, robotNumbers := SaveBoardPayload(b, startX, startY, width, height, chars, colors, mf);
    PatchIfRobots(mf, tableStart, |robotNumbers|, savegame);
  }

  /** The tiles of a board-storage save, after the header. */
  method SaveBoardPayload(b: Board, startX: int, startY: int, width: int, height: int,
                          chars: seq<int>, colors: seq<int>, mf: MemWriter)
    returns (tableStart: int, robotNumbers: seq<int>)
    requires b.Valid() && mf.Valid() && mf.pos == HeaderSize
    requires |chars| == b.cells.Length && |colors| == b.cells.Length
    requires 0 <= startX && 0 <= width && startX + width <= b.width
    requires 0 <= startY && 0 <= height && startY + height <= b.height
    requires mf.buf.Length >= TileEnd(width, height, BoardStorage)
    modifies mf, mf.buf
    ensures mf.Valid() && tableStart == TileEnd(width, height, BoardStorage)
    ensures robotNumbers == RegionRobots(b.cells[..], b.width, startX + startY * b.width, width, height)
    ensures mf.buf[..HeaderSize] == old(mf.buf[..HeaderSize])
    ensures mf.buf[HeaderSize..tableStart] ==
      SavedBoardPayload(b.cells[..], chars, colors, b.width, startX + startY * b.width, width, height)
  {
    var start := startX + startY * b.width;
    ghost var payload := SavedBoardPayload(b.cells[..], chars, colors, b.width, start, width, height);
    RectRowsFit(b.width, b.height, startX, startY, width, height);
    SavedBoardPayloadLength(b.cells[..], chars, colors, b.width, start, width, height);
    ghost var header := mf.buf[..HeaderSize];
    robotNumbers := WriteBoardTiles(mf, b.cells[..], chars, colors, b.width, start, width, height);
    tableStart := mf.Tell();
    assert tableStart == HeaderSize + 6 * (width * height) == TileEnd(width, height, BoardStorage);
    assert mf.buf[..HeaderSize] == mf.buf[..tableStart][..HeaderSize] == header;
    assert mf.buf[HeaderSize..tableStart] == mf.buf[..tableStart][HeaderSize..] == payload;
  }

  /** The robot fields of the header are patched only when robots were
      met; the tiles stay as they are. */
  method PatchIfRobots(mf: MemWriter, tableStart: int, numRobots: int, savegame: int)
    requires mf.Valid() && HeaderSize <= tableStart <= mf.buf.Length
    modifies mf, mf.buf
    ensures mf.Valid()
    ensures mf.buf[..HeaderSize] ==
      if numRobots == 0 then old(mf.buf[..HeaderSize])
      else PatchedHeader(old(mf.buf[..HeaderSize]), tableStart, numRobots, savegame)
    ensures mf.buf[HeaderSize..tableStart] == old(mf.buf[HeaderSize..tableStart])
  {
    if numRobots != 0 {
      ghost var tiles := mf.buf[HeaderSize..tableStart];
      assert tiles == mf.buf[HeaderSize..][..tableStart - HeaderSize];
      PatchRobotFields(mf, tableStart, numRobots, savegame);
      assert mf.buf[HeaderSize..tableStart] == mf.buf[HeaderSize..][..tableStart - HeaderSize];
    }
  }

  /** The layer-storage tiles after the header, read from `glyphs`. */
  method SaveLayerTiles(glyphs: seq<Glyph>, layerWidth: int, layerHeight: int,
                        startX: int, startY: int, width: int, height: int, mf: MemWriter)
    returns (tableStart: int)
    requires mf.Valid() && mf.pos == HeaderSize && |glyphs| == layerWidth * layerHeight
    requires 0 <= startX && 0 <= width && startX + width <= layerWidth
    requires 0 <= startY && 0 <= height && startY + height <= layerHeight
    requires mf.buf.Length >= TileEnd(width, height, LayerStorage)
    modifies mf, mf.buf
    ensures mf.Valid() && tableStart == TileEnd(width, height, LayerStorage)
    ensures mf.buf[..HeaderSize] == old(mf.buf[..HeaderSize])
    ensures mf.buf[HeaderSize..tableStart] == LayerPayload(glyphs, layerWidth, startX + startY * layerWidth, width, height)
  {
    var start := startX + startY * layerWidth;
    ghost var payload := LayerPayload(glyphs, layerWidth, start, width, height);
    RectRowsFit(layerWidth, layerHeight, startX, startY, width, height);
    LayerPayloadLength(glyphs, layerWidth, start, width, height);
    ghost var header := mf.buf[..HeaderSize];
    WriteLayerTiles(mf, glyphs, layerWidth, start, width, height);
    tableStart := mf.Tell();
    assert tableStart == HeaderSize + 2 * (width * height) == TileEnd(width, height, LayerStorage);
    assert mf.buf[..HeaderSize] == mf.buf[..tableStart][..HeaderSize] == header;
    assert mf.buf[HeaderSize..tableStart] == mf.buf[..tableStart][HeaderSize..] == payload;
  }

  /** The layer-storage tiles of an overlay, board-to-layer or vlayer
      save; an overlay save switches a board's missing overlay on first
      (setup_overlay with mode 3). */
  method SaveLayerMode(b: Board, world: World, startX: int, startY: int, width: int, height: int,
                       mode: SaveMode, chars: seq<int>, colors: seq<int>, mf: MemWriter)
    returns (tableStart: int)
    requires b.Valid() && world.Valid() && mf.Valid() && mf.pos == HeaderSize && mode != BoardToBoard
    requires |chars| == b.cells.Length && |colors| == b.cells.Length
    requires InsideSource(b, world, mode, startX, startY, width, height)
    requires mf.buf.Length >= TileEnd(width, height, LayerStorage)
    modifies mf, mf.buf, b`overlayMode
    ensures mf.Valid() && tableStart == TileEnd(width, height, LayerStorage)
    ensures mode == OverlayToLayer && old(b.overlayMode) == 0 ==> b.overlayMode == 3
    ensures mode != OverlayToLayer || old(b.overlayMode) != 0 ==> b.overlayMode == old(b.overlayMode)
    ensures mf.buf[..HeaderSize] == old(mf.buf[..HeaderSize])
    ensures mode == OverlayToLayer ==>
      mf.buf[HeaderSize..tableStart] == LayerPayload(b.overlay[..], b.width, startX + startY * b.width, width, height)
    ensures mode == BoardToLayer ==>
      mf.buf[HeaderSize..tableStart] ==
        LayerPayload(Shown(chars, colors), b.width, startX + startY * b.width, width, height)
    ensures mode == VlayerToLayer ==>
      mf.buf[HeaderSize..tableStart] ==
        LayerPayload(world.vlayer[..], world.vlayerWidth, startX + startY * world.vlayerWidth, width, height)
  {
    if mode == OverlayToLayer {
      b.SetupOverlay();
    }
    var glyphs, layerWidth, layerHeight;
    match mode {
      case OverlayToLayer =>
        glyphs, layerWidth, layerHeight := b.overlay[..], b.width, b.height;
      case BoardToLayer =>
        glyphs, layerWidth, layerHeight := Shown(chars, colors), b.width, b.height;
      case VlayerToLayer =>
        glyphs, layerWidth, layerHeight := world.vlayer[..], world.vlayerWidth, world.vlayerHeight;
    }
    tableStart := SaveLayerTiles(glyphs, layerWidth, layerHeight, startX, startY, width, height, mf);
  }

  /** save_mzm_common: the header, then the tiles in the mode's storage;
      for a board-to-board save that met robot cells, the robot fields
      of the header are patched. Returns where the tiles end (the robot
      table position) and the slots of the robots met, in row-major
      order; their programs go into an archive from that position as
      entries named by EntryName of their index in the list. */
  method SaveCommon(b: Board, world: World, startX: int, startY: int, width: int, height: int,
                    mode: SaveMode, savegame: int, chars: seq<int>, colors: seq<int>, mf: MemWriter)
    returns (tableStart: int, robotNumbers: seq<int>)
    requires b.Valid() && world.Valid() && mf.Valid() && mf.pos == 0
    requires |chars| == b.cells.Length && |colors| == b.cells.Length
    requires InsideSource(b, world, mode, startX, startY, width, height)
    requires mf.buf.Length >= TileEnd(width, height, StorageFor(mode))
    modifies mf, mf.buf, b`overlayMode
    ensures mf.Valid() && tableStart == TileEnd(width, height, StorageFor(mode))
    ensures mode == OverlayToLayer && old(b.overlayMode) == 0 ==> b.overlayMode == 3
    ensures mode != OverlayToLayer || old(b.overlayMode) != 0 ==> b.overlayMode == old(b.overlayMode)
    ensures mode == BoardToBoard ==>
      robotNumbers == RegionRobots(b.cells[..], b.width, startX + startY * b.width, width, height)
    ensures mode != BoardToBoard ==> robotNumbers == []
    ensures mf.buf[..HeaderSize] ==
      if robotNumbers == [] then SavedHeader(width, height, StorageFor(mode))
      else PatchedHeader(SavedHeader(width, height, StorageFor(mode)), tableStart, |robotNumbers|,
                         if savegame != 0 then 1 else 0)
    ensures mode == BoardToBoard ==>
      mf.buf[HeaderSize..tableStart] ==
        SavedBoardPayload(b.cells[..], chars, colors, b.width, startX + startY * b.width, width, height)
    ensures mode == OverlayToLayer ==>
      mf.buf[HeaderSize..tableStart] == LayerPayload(b.overlay[..], b.width, startX + startY * b.width, width, height)
    ensures mode == BoardToLayer ==>
      mf.buf[HeaderSize..tableStart] ==
        LayerPayload(Shown(chars, colors), b.width, startX + startY * b.width, width, height)
    ensures mode == VlayerToLayer ==>
      mf.buf[HeaderSize..tableStart] ==
        LayerPayload(world.vlayer[..], world.vlayerWidth, startX + startY * world.vlayerWidth, width, height)
  {
    var storage := StorageFor(mode);
    var savegameFlag := if savegame != 0 then 1 else 0;
    WriteHeader(mf, width, height, storage);
    if mode == BoardToBoard {
      tableStart, robotNumbers := SaveBoardTiles(b, startX, startY, width, height, savegameFlag, chars, colors, mf);
    } else {
      robotNumbers := [];
      tableStart := SaveLayerMode(b, world, startX, startY, width, height, mode, chars, colors, mf);
    }
  }
}
