/** load_mzm_common and its entry points (src/mzm.c): the header is read
    and validated before anything changes; then the rectangle is clipped
    against its destination and loaded onto the board (tiles, then
    robots), the overlay or the vlayer. */
module MzmLoad {
  import opened Bytes
  import opened MzmFormat
  import opened MzmBoard
  import opened MzmRect
  import opened MzmTiles
  import opened MzmGlyphs
  import opened MemFiles
  import opened ZipProps
  import opened MzmRobots
  import opened MzmLoadHeader
  import opened MzmTileLoad
  import opened MzmRobotLoad

  /** MZM_LOAD_TO_BOARD, MZM_LOAD_TO_OVERLAY, MZM_LOAD_TO_VLAYER, and any
      other mode value, which the loader validates and then ignores. */
  datatype LoadMode = ToBoard | ToOverlay | ToVlayer | OtherMode

  function StorageOf(h: Header): StorageMode
  {
    if h.storageMode == 0 then BoardStorage else LayerStorage
  }

  /** The tile phase of a load onto a `boardWidth` x `boardHeight` board
      at (startX, startY): the clipped rectangle's records stored, the
      slots of overwritten robots freed, and the robot markers noted. An
      origin row at or past the height clips the height to nothing or less:
      no row is read and no marker noted. */
  function LoadedTiles(s: Scene, data: seq<int>, h: Header, boardWidth: int, boardHeight: int,
                       startX: int, startY: int): (t: Tiles)
    requires |s.cells| == boardWidth * boardHeight && h.width >= 0 && h.height >= 0
    requires 0 <= startX < boardWidth && 0 <= startY
  {
    if startY >= boardHeight then Tiles(s.cells, s.slots, [])
    else
    var effW := Effective(h.width, startX, boardWidth);
    var effH := Effective(h.height, startY, boardHeight);
    EffectiveWithin(h.width, startX, boardWidth);
    EffectiveWithin(h.height, startY, boardHeight);
    RectRowsFit(boardWidth, boardHeight, startX, startY, effW, effH);
    TileRows(Tiles(s.cells, s.slots, []), data, StorageOf(h), h.dataStart, h.width, effW,
             startX + startY * boardWidth, boardWidth, startX, startY, effH)
  }

  /** Every robot marker of the tile phase lies inside the clipped
      rectangle. */
  predicate MarkersInRect(markers: seq<Marker>, startX: int, startY: int, effW: int, effH: int)
  {
    forall k :: 0 <= k < |markers| && markers[k].At? ==>
      startX <= markers[k].x < startX + effW && startY <= markers[k].y < startY + effH
  }

  /** The markers the tile phase notes lie inside the clipped rectangle,
      so on the board. */
  lemma LoadedMarkersInRect(s: Scene, data: seq<int>, h: Header, boardWidth: int, boardHeight: int,
                            startX: int, startY: int)
    requires |s.cells| == boardWidth * boardHeight && h.width >= 0 && h.height >= 0
    requires 0 <= startX < boardWidth && 0 <= startY
    ensures var t := LoadedTiles(s, data, h, boardWidth, boardHeight, startX, startY);
      MarkersInRect(t.markers, startX, startY, Effective(h.width, startX, boardWidth),
                    Effective(h.height, startY, boardHeight)) &&
      MarkersOnBoard(t.markers, boardWidth, boardHeight)
  {
    if startY >= boardHeight {
      return;
    }
    var effW := Effective(h.width, startX, boardWidth);
    var effH := Effective(h.height, startY, boardHeight);
    EffectiveWithin(h.width, startX, boardWidth);
    EffectiveWithin(h.height, startY, boardHeight);
    RectRowsFit(boardWidth, boardHeight, startX, startY, effW, effH);
    var t0 := Tiles(s.cells, s.slots, []);
    var all := MarkerRect(data, StorageOf(h), h.dataStart, h.width, effW, startX, startY, effH);
    TileRowsMarkers(t0, data, StorageOf(h), h.dataStart, h.width, effW, startX + startY * boardWidth, boardWidth,
                    startX, startY, effH);
    MarkerRectInside(data, StorageOf(h), h.dataStart, h.width, effW, startX, startY, effH);
    assert [] + all == all;
    var markers := LoadedTiles(s, data, h, boardWidth, boardHeight, startX, startY).markers;
    assert markers == Cap(all);
    forall k | 0 <= k < |markers|
      ensures markers[k] in all
    {
      assert markers[k] == all[k];
    }
  }

  /** A whole load onto the board: the tile phase, then, for board
      storage, the robot phase over the noted markers. */
  function LoadedBoard(s: Scene, data: seq<int>, h: Header, startX: int, startY: int, savegame: int,
                       env: RobotEnv): Scene
    requires SceneOk(s, env.width, env.height) && h.width >= 0 && h.height >= 0
    requires 0 <= startX < env.width && 0 <= startY
  {
    var t := LoadedTiles(s, data, h, env.width, env.height, startX, startY);
    var tiled := Scene(t.cells, t.slots, s.byName);
    LoadedMarkersInRect(s, data, h, env.width, env.height, startX, startY);
    if StorageOf(h) == BoardStorage && h.numRobots >= 0 then
      RobotPhase(tiled, env, t.markers, StartSource(h), DummiedFromStart(h, savegame), 0, h.numRobots)
    else tiled
  }

  /** A load whose origin row is at or past the board's height leaves the
      board as it was: no tile is written, and the robot loop, with
      every robot's position unset, places none. */
  lemma LoadBelowBoard(s: Scene, data: seq<int>, h: Header, startX: int, startY: int, savegame: int,
                       env: RobotEnv)
    requires SceneOk(s, env.width, env.height) && h.width >= 0 && h.height >= 0
    requires 0 <= startX < env.width && env.height <= startY
    ensures LoadedBoard(s, data, h, startX, startY, savegame, env) == s
  {
    if StorageOf(h) == BoardStorage && h.numRobots >= 0 {
      RobotPhaseUnplaced(s, env, StartSource(h), DummiedFromStart(h, savegame), 0, h.numRobots);
    }
  }

  /** Two cells of a board are the same cell only at the same place. */
  lemma SameCell(width: int, x: int, y: int, cx: int, cy: int)
    requires 0 <= x < width && 0 <= cx < width
    requires x + y * width == cx + cy * width
    ensures x == cx && y == cy
  {
    OnRow(width, x, y, 1, cx, cy);
  }

  /** A load never changes the player's cell: neither the tiles nor the
      robots overwrite it. */
  lemma LoadKeepsPlayer(s: Scene, data: seq<int>, h: Header, startX: int, startY: int, savegame: int,
                        env: RobotEnv, cx: int, cy: int)
    requires SceneOk(s, env.width, env.height) && h.width >= 0 && h.height >= 0
    requires 0 <= startX < env.width && 0 <= startY
    requires 0 <= cx < env.width && 0 <= cy < env.height
    requires 0 <= cx + cy * env.width < |s.cells| && s.cells[cx + cy * env.width].id == Player
    ensures LoadedBoard(s, data, h, startX, startY, savegame, env).cells[cx + cy * env.width] ==
      s.cells[cx + cy * env.width]
  {
    if startY >= env.height {
      LoadBelowBoard(s, data, h, startX, startY, savegame, env);
      RectIndex(env.width, env.height, cx, cy);
      return;
    }
    var effW := Effective(h.width, startX, env.width);
    var effH := Effective(h.height, startY, env.height);
    EffectiveWithin(h.width, startX, env.width);
    EffectiveWithin(h.height, startY, env.height);
    LoadedBoardCell(Tiles(s.cells, s.slots, []), data, StorageOf(h), h.dataStart, h.width, env.width, env.height,
                    startX, startY, effW, effH, cx, cy);
    var t := LoadedTiles(s, data, h, env.width, env.height, startX, startY);
    LoadedMarkersInRect(s, data, h, env.width, env.height, startX, startY);
    if StorageOf(h) == BoardStorage && h.numRobots >= 0 {
      RobotPhaseFrame(Scene(t.cells, t.slots, s.byName), env, t.markers, StartSource(h),
                      DummiedFromStart(h, savegame), 0, h.numRobots);
    }
  }

  /** A load changes no cell outside the clipped rectangle: tiles land
      inside it, and robots are placed only where their records were
      read. */
  lemma LoadKeepsOutside(s: Scene, data: seq<int>, h: Header, startX: int, startY: int, savegame: int,
                         env: RobotEnv, cx: int, cy: int)
    requires SceneOk(s, env.width, env.height) && h.width >= 0 && h.height >= 0
    requires 0 <= startX < env.width && 0 <= startY
    requires 0 <= cx < env.width && 0 <= cy < env.height
    requires !(startX <= cx < startX + Effective(h.width, startX, env.width) &&
               startY <= cy < startY + Effective(h.height, startY, env.height))
    ensures 0 <= cx + cy * env.width < |s.cells|
    ensures LoadedBoard(s, data, h, startX, startY, savegame, env).cells[cx + cy * env.width] ==
      s.cells[cx + cy * env.width]
  {
    if startY >= env.height {
      LoadBelowBoard(s, data, h, startX, startY, savegame, env);
      RectIndex(env.width, env.height, cx, cy);
      return;
    }
    var effW := Effective(h.width, startX, env.width);
    var effH := Effective(h.height, startY, env.height);
    EffectiveWithin(h.width, startX, env.width);
    EffectiveWithin(h.height, startY, env.height);
    LoadedBoardCell(Tiles(s.cells, s.slots, []), data, StorageOf(h), h.dataStart, h.width, env.width, env.height,
                    startX, startY, effW, effH, cx, cy);
    var t := LoadedTiles(s, data, h, env.width, env.height, startX, startY);
    LoadedMarkersInRect(s, data, h, env.width, env.height, startX, startY);
    var k := cx + cy * env.width;
    RectIndex(env.width, env.height, cx, cy);
    if StorageOf(h) == BoardStorage && h.numRobots >= 0 {
      if Marked(t.markers, env.width, env.height, k) {
        var j :| 0 <= j < |t.markers| && t.markers[j].At? && MarkerIndex(t.markers[j], env.width, env.height) == k;
        SameCell(env.width, t.markers[j].x, t.markers[j].y, cx, cy);
        assert false;
      }
      RobotPhaseFrame(Scene(t.cells, t.slots, s.byName), env, t.markers, StartSource(h),
                      DummiedFromStart(h, savegame), 0, h.numRobots);
    }
  }

  /** The tile payload of an accepted header, clipped to `effH` rows,
      lies inside the file. */
  lemma ClippedPayloadFits(h: Header, fileLength: int, effH: nat)
    requires Accepted(h, fileLength) && h.width >= 0 && h.height >= 0 && h.dataStart >= 0 && effH <= h.height
    ensures h.dataStart + RecordSize(StorageOf(h)) * (h.width * h.height) <= fileLength
    ensures h.dataStart + RecordSize(StorageOf(h)) * (h.width * effH) <= fileLength
    ensures h.robotsLocation >= 0
  {
    AcceptedPayloadFits(h, fileLength);
    var size := RecordSize(StorageOf(h));
    assert size == Stride(h.storageMode);
    assert h.width * h.height * size == size * (h.width * h.height);
    assert h.width * effH <= h.width * h.height;
    assert size * (h.width * effH) <= size * (h.width * h.height);
  }

  /** The board case of load_mzm_common. */
  method LoadOntoBoard(b: Board, mf: MemFile, h: Header, startX: int, startY: int, savegame: int, env: RobotEnv)
    requires b.Valid() && mf.Valid() && mf.pos == h.dataStart
    requires Accepted(h, |mf.data|) && h.width >= 0 && h.height >= 0 && h.dataStart >= 0 && h.numRobots >= 0
    requires 0 <= startX < b.width && 0 <= startY
    requires env.fileLength == |mf.data| && env.width == b.width && env.height == b.height
    modifies b.cells, b.robotList, b`robotsByName, mf
    ensures mf.Valid()
    ensures SceneOf(b) == LoadedBoard(old(SceneOf(b)), mf.data, h, startX, startY, savegame, env)
  {
    var effW := Effective(h.width, startX, b.width);
    var effH := Effective(h.height, startY, b.height);
    ghost var s := SceneOf(b);
    ghost var t := LoadedTiles(s, mf.data, h, b.width, b.height, startX, startY);
    var noted: seq<Marker> := [];
    if startY < b.height {
      EffectiveWithin(h.width, startX, b.width);
      EffectiveWithin(h.height, startY, b.height);
      ClippedPayloadFits(h, |mf.data|, effH);
      noted := LoadTilesToBoard(b, mf, StorageOf(h), h.width, effW, effH, startX, startY);
    }
    assert SceneOf(b) == Scene(t.cells, t.slots, s.byName) && noted == t.markers;
    LoadedMarkersInRect(s, mf.data, h, b.width, b.height, startX, startY);
    if StorageOf(h) == BoardStorage {
      LoadRobots(b, mf, env, noted, h, savegame);
    }
  }

  /** A layer (the overlay or the vlayer, `destWidth` x `destHeight`) once
      the clipped rectangle's chars and colors are written to it. */
  function LoadedLayer(a: seq<Glyph>, data: seq<int>, h: Header, destWidth: int, destHeight: int,
                       startX: int, startY: int): (r: seq<Glyph>)
    requires |a| == destWidth * destHeight && h.width >= 0 && h.height >= 0
    requires 0 <= startX < destWidth && 0 <= startY
    ensures |r| == |a|
  {
    if startY >= destHeight then a
    else
    var effW := Effective(h.width, startX, destWidth);
    var effH := Effective(h.height, startY, destHeight);
    var size := RecordSize(StorageOf(h));
    EffectiveWithin(h.width, startX, destWidth);
    EffectiveWithin(h.height, startY, destHeight);
    RectRowsFit(destWidth, destHeight, startX, startY, effW, effH);
    RectWrite(a, Written(data, StorageOf(h)), h.dataStart, size, size * h.width, startX + startY * destWidth,
              destWidth, effW, effH)
  }

  /** What load_mzm_common leaves behind for an accepted header: the
      target of the mode loaded, everything else as it was. */
  ghost predicate LoadedAs(b: Board, world: World, mode: LoadMode, data: seq<int>, h: Header,
                           startX: int, startY: int, savegame: int, env: RobotEnv,
                           s: Scene, overlay: seq<Glyph>, overlayMode: int, vlayer: seq<Glyph>)
    reads b, b.cells, b.robotList, b.overlay, world, world.vlayer
    requires SceneOk(s, env.width, env.height) && h.width >= 0 && h.height >= 0
    requires |overlay| == b.width * b.height && |vlayer| == world.vlayerWidth * world.vlayerHeight
    requires mode == ToBoard || mode == ToOverlay ==> 0 <= startX < b.width && 0 <= startY
    requires mode == ToVlayer ==> 0 <= startX < world.vlayerWidth && 0 <= startY
    requires mode == ToBoard ==> env.width == b.width && env.height == b.height
  {
    (if mode == ToBoard then SceneOf(b) == LoadedBoard(s, data, h, startX, startY, savegame, env)
     else SceneOf(b) == s) &&
    (if mode == ToOverlay then
       b.overlayMode == (if overlayMode == 0 then 3 else overlayMode) &&
       b.overlay[..] == LoadedLayer(overlay, data, h, b.width, b.height, startX, startY)
     else b.overlayMode == overlayMode && b.overlay[..] == overlay) &&
    (if mode == ToVlayer then
       world.vlayer[..] == LoadedLayer(vlayer, data, h, world.vlayerWidth, world.vlayerHeight, startX, startY)
     else world.vlayer[..] == vlayer)
  }

  /** The switch on the mode of load_mzm_common, once the header is
      accepted. */
  method LoadAccepted(b: Board, world: World, mf: MemFile, h: Header, mode: LoadMode, startX: int, startY: int,
                      savegame: int, env: RobotEnv)
    requires b.Valid() && world.Valid() && b.overlay != world.vlayer && mf.Valid() && mf.pos == h.dataStart
    requires Accepted(h, |mf.data|) && h.width >= 0 && h.height >= 0 && h.numRobots >= 0
    requires mode == ToBoard || mode == ToOverlay ==> 0 <= startX < b.width && 0 <= startY
    requires mode == ToVlayer ==> 0 <= startX < world.vlayerWidth && 0 <= startY
    requires env.fileLength == |mf.data| && env.width == b.width && env.height == b.height
    modifies b.cells, b.robotList, b`robotsByName, b`overlayMode, b.overlay, world.vlayer, mf
    ensures LoadedAs(b, world, mode, mf.data, h, startX, startY, savegame, env,
                     old(SceneOf(b)), old(b.overlay[..]), old(b.overlayMode), old(world.vlayer[..]))
  {
    ClippedPayloadFits(h, |mf.data|, h.height);
    match mode {
      case ToBoard =>
        LoadOntoBoard(b, mf, h, startX, startY, savegame, env);
      case ToOverlay =>
        LoadToOverlay(b, mf, StorageOf(h), h.width, h.height, startX, startY);
      case ToVlayer =>
        LoadToVlayer(world, mf, StorageOf(h), h.width, h.height, startX, startY);
      case OtherMode =>
    }
  }

  /** load_mzm_common over the memfile `mf` of a whole file: -1 with
      nothing changed when the header is missing or fails validation,
      and 0 with the rectangle loaded otherwise. The robot collaborators
      are the legacy robot codec for this file, the entries of its zip
      archive and the robot create_blank_robot makes. */
  method LoadCommon(b: Board, world: World, mf: MemFile, mode: LoadMode, startX: int, startY: int,
                    savegame: int, codec: LegacyCodec, entries: seq<ZipProp>, blank: RobotObj)
    returns (result: int)
    requires b.Valid() && world.Valid() && b.overlay != world.vlayer && mf.Valid() && mf.pos == 0
    requires mode == ToBoard || mode == ToOverlay ==> 0 <= startX < b.width && 0 <= startY
    requires mode == ToVlayer ==> 0 <= startX < world.vlayerWidth && 0 <= startY
    modifies b.cells, b.robotList, b`robotsByName, b`overlayMode, b.overlay, world.vlayer, mf
    ensures result == 0 || result == -1
    ensures result == 0 <==> ParseHeader(mf.data).Some? && Accepted(ParseHeader(mf.data).value, |mf.data|)
    ensures result == -1 ==>
      SceneOf(b) == old(SceneOf(b)) && b.overlayMode == old(b.overlayMode) &&
      b.overlay[..] == old(b.overlay[..]) && world.vlayer[..] == old(world.vlayer[..])
    ensures result == 0 ==>
      LoadedAs(b, world, mode, mf.data, ParseHeader(mf.data).value, startX, startY, savegame,
               RobotEnv(codec, |mf.data|, entries, blank, b.width, b.height, world.version),
               old(SceneOf(b)), old(b.overlay[..]), old(b.overlayMode), old(world.vlayer[..]))
  {
    var header := LoadHeader(mf);
    if header.None? {
      return -1;
    }
    var h := header.value;
    var expected := h.width * h.height * (if h.storageMode != 0 then 2 else 6);
    if h.savegameMode > 1 || h.savegameMode < 0 || (h.storageMode != 0 && h.storageMode != 1) ||
       |mf.data| - h.dataStart < expected || |mf.data| < h.robotsLocation ||
       (h.robotsLocation != 0 && expected + h.dataStart > h.robotsLocation) {
      return -1;
    }
    var env := RobotEnv(codec, |mf.data|, entries, blank, b.width, b.height, world.version);
    LoadAccepted(b, world, mf, h, mode, startX, startY, savegame, env);
    result := 0;
  }

  /** load_mzm: a file that cannot be opened, or an empty one (fread
      reads no whole file), fails with -1; otherwise the file is loaded
      from memory. */
  method LoadMzm(b: Board, world: World, file: Option<seq<int>>, mode: LoadMode, startX: int, startY: int,
                 savegame: int, codec: LegacyCodec, entries: seq<ZipProp>, blank: RobotObj)
    returns (result: int)
    requires b.Valid() && world.Valid() && b.overlay != world.vlayer && (file.Some? ==> AllBytes(file.value))
    requires mode == ToBoard || mode == ToOverlay ==> 0 <= startX < b.width && 0 <= startY
    requires mode == ToVlayer ==> 0 <= startX < world.vlayerWidth && 0 <= startY
    modifies b.cells, b.robotList, b`robotsByName, b`overlayMode, b.overlay, world.vlayer
    ensures result == 0 <==>
      file.Some? && |file.value| > 0 && ParseHeader(file.value).Some? &&
      Accepted(ParseHeader(file.value).value, |file.value|)
    ensures result != 0 ==>
      result == -1 && SceneOf(b) == old(SceneOf(b)) && b.overlayMode == old(b.overlayMode) &&
      b.overlay[..] == old(b.overlay[..]) && world.vlayer[..] == old(world.vlayer[..])
    ensures result == 0 ==>
      LoadedAs(b, world, mode, file.value, ParseHeader(file.value).value, startX, startY, savegame,
               RobotEnv(codec, |file.value|, entries, blank, b.width, b.height, world.version),
               old(SceneOf(b)), old(b.overlay[..]), old(b.overlayMode), old(world.vlayer[..]))
  {
    if file.None? || |file.value| == 0 {
      return -1;
    }
    var mf := new MemFile.Open(file.value);
    result := LoadCommon(b, world, mf, mode, startX, startY, savegame, codec, entries, blank);
  }

  /** load_mzm_memory: load_mzm_common over the caller's buffer. */
  method LoadMzmMemory(b: Board, world: World, buffer: seq<int>, mode: LoadMode, startX: int, startY: int,
                       savegame: int, codec: LegacyCodec, entries: seq<ZipProp>, blank: RobotObj)
    returns (result: int)
    requires b.Valid() && world.Valid() && b.overlay != world.vlayer && AllBytes(buffer)
    requires mode == ToBoard || mode == ToOverlay ==> 0 <= startX < b.width && 0 <= startY
    requires mode == ToVlayer ==> 0 <= startX < world.vlayerWidth && 0 <= startY
    modifies b.cells, b.robotList, b`robotsByName, b`overlayMode, b.overlay, world.vlayer
    ensures result == 0 <==> ParseHeader(buffer).Some? && Accepted(ParseHeader(buffer).value, |buffer|)
    ensures result != 0 ==>
      result == -1 && SceneOf(b) == old(SceneOf(b)) && b.overlayMode == old(b.overlayMode) &&
      b.overlay[..] == old(b.overlay[..]) && world.vlayer[..] == old(world.vlayer[..])
    ensures result == 0 ==>
      LoadedAs(b, world, mode, buffer, ParseHeader(buffer).value, startX, startY, savegame,
               RobotEnv(codec, |buffer|, entries, blank, b.width, b.height, world.version),
               old(SceneOf(b)), old(b.overlay[..]), old(b.overlayMode), old(world.vlayer[..]))
  {
    var mf := new MemFile.Open(buffer);
    result := LoadCommon(b, world, mf, mode, startX, startY, savegame, codec, entries, blank);
  }

  /** load_mzm_size: the width and height of the header in the first 20
      bytes of the file, or (-1, -1) when the file cannot be opened or
      those bytes hold no header. */
  method LoadMzmSize(file: Option<seq<int>>) returns (width: int, height: int)
    requires file.Some? ==> AllBytes(file.value)
    ensures var head := if file.Some? then file.value[..if |file.value| < 20 then |file.value| else 20] else [];
      if file.Some? && ParseHeader(head).Some? then
        width == ParseHeader(head).value.width && height == ParseHeader(head).value.height
      else width == -1 && height == -1
  {
    width, height := -1, -1;
    if file.Some? {
      var readLength := if |file.value| < 20 then |file.value| else 20;
      var mf := new MemFile.Open(file.value[..readLength]);
      var h := LoadHeader(mf);
      if h.Some? {
        width, height := h.value.width, h.value.height;
      }
    }
  }
}
