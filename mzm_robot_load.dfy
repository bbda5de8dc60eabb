/** The robot loop of load_mzm_common (src/mzm.c) over a board, proved
    against the robot phase of MzmRobots. */
module MzmRobotLoad {
  import opened Bytes
  import opened MzmFormat
  import opened MzmBoard
  import opened MzmTiles
  import opened MemFiles
  import opened ZipProps
  import opened MzmRobots

  /** The board's cells, robot slots and name index as one value. */
  ghost function SceneOf(b: Board): Scene
    reads b, b.cells, b.robotList
  {
    Scene(b.cells[..], b.robotList[..], b.robotsByName)
  }

  /** Where the loop stands in the robot source: the memfile cursor and
      the last computed size for a legacy file, the archive reader's entry
      otherwise. */
  ghost function SourceAt(mf: MemFile, zp: ZipReader?, lastSize: nat): RobotSource
    reads mf, zp
  {
    if zp == null then LegacySource(mf.pos, lastSize) else ZipSource(zp.cursor)
  }

  /** The legacy branch of the loop body: create_blank_robot, the two
      size checks, and the cursor moved on by the computed size. */
  method FetchLegacyRobot(mf: MemFile, codec: LegacyCodec, blank: RobotObj, lastSize: nat)
    returns (robot: RobotObj, size: nat, failed: bool)
    requires mf.Valid()
    modifies mf
    ensures mf.Valid()
    ensures Fetched(robot, LegacySource(mf.pos, size), failed) ==
      LegacyFetch(codec, |mf.data|, old(mf.pos), lastSize, blank)
  {
    robot, size, failed := blank, lastSize, false;
    var position := mf.Tell();
    if position + codec.partialSize <= |mf.data| {
      size := codec.calcSize(position);
      if position + size <= |mf.data| {
        robot := codec.decode(position);
      } else {
        mf.SeekEnd();
        failed := true;
      }
    } else {
      mf.SeekEnd();
      failed := true;
    }
    mf.Skip(size);
  }

  /** The zip branch of the loop body: the search for robot `i`. */
  method FetchZipRobot(zp: ZipReader, i: int, blank: RobotObj) returns (robot: RobotObj, failed: bool)
    requires zp.Valid()
    modifies zp
    ensures zp.Valid()
    ensures var z := ZipFetch(zp.entries, old(zp.cursor), i, blank);
      robot == z.robot && zp.cursor == z.cursor && failed == (z.outcome == Exhausted)
  {
    robot, failed := blank, false;
    var searching := true;
    while searching
      invariant zp.Valid() && old(zp.cursor) <= zp.cursor && (searching ==> !failed)
      invariant var z := ZipFetch(zp.entries, old(zp.cursor), i, blank);
        if searching then ZipFetch(zp.entries, zp.cursor, i, blank) == z
        else robot == z.robot && zp.cursor == z.cursor && failed == (z.outcome == Exhausted)
      decreases searching, |zp.entries| - zp.cursor
    {
      ghost var here := ZipFetch(zp.entries, zp.cursor, i, blank);
      var prop := zp.NextProp();
      if prop.None? {
        robot, failed := blank, true;
        searching := false;
      } else if !prop.value.isRobot || prop.value.robotId < i {
        zp.SkipFile();
      } else if prop.value.robotId > i {
        robot := blank;
        searching := false;
      } else {
        assert here == ZipFetched(zp.entries[zp.cursor].robot, zp.cursor + 1, Loaded);
        robot := zp.ReadRobot();
        searching := false;
      }
    }
  }

  /** The placement half of the loop body, with the player check before
      every branch. */
  method PlaceRobot(b: Board, m: Marker, r: RobotObj, dummy: bool, version: int)
    requires b.Valid() && OnBoard(m, b.width, b.height)
    modifies b.cells, b.robotList, b`robotsByName
    ensures SceneOf(b) == Place(old(SceneOf(b)), b.width, b.height, m, r, dummy, version)
  {
    if m.At? {
      var o := MarkerIndex(m, b.width, b.height);
      var c := b.cells[o];
      if c.id == Player {
      } else if dummy {
        b.cells[o] := c.(id := CustomBlock, param := r.robotChar);
      } else {
        var slot := FreeSlot(b.robotList[..], 1);
        if slot == -1 {
          b.cells[o] := c.(id := 0, param := 0, color := 7);
        } else {
          var placed := r.(xpos := m.x, ypos := m.y, worldVersion := version);
          b.robotsByName := b.robotsByName + [Some(placed)];
          b.robotList[slot] := Some(placed);
          b.cells[o] := c.(param := slot);
        }
      }
    }
  }

  /** What the loop needs of its surroundings. */
  ghost predicate LoopOk(b: Board, mf: MemFile, zp: ZipReader?, env: RobotEnv, markers: seq<Marker>)
    reads b, mf, zp
  {
    b.Valid() && mf.Valid() && (zp != null ==> zp.Valid() && zp.entries == env.entries) &&
    env.fileLength == |mf.data| && env.width == b.width && env.height == b.height &&
    MarkersOnBoard(markers, b.width, b.height)
  }

  /** One pass of the loop body: robot `i` fetched, then placed. */
  method LoadRobot(b: Board, mf: MemFile, zp: ZipReader?, env: RobotEnv, markers: seq<Marker>,
                   lastSize: nat, dummy: bool, i: nat) returns (size: nat, d: bool)
    requires LoopOk(b, mf, zp, env, markers)
    modifies b.cells, b.robotList, b`robotsByName, mf, zp
    ensures LoopOk(b, mf, zp, env, markers)
    ensures var f := Fetch(env, old(SourceAt(mf, zp, lastSize)), i);
      SourceAt(mf, zp, size) == f.source && d == (dummy || f.failed) &&
      SceneOf(b) == Place(old(SceneOf(b)), env.width, env.height, Position(markers, i), f.robot, d, env.version)
  {
    var robot: RobotObj;
    var failed: bool;
    size := lastSize;
    if zp == null {
      robot, size, failed := FetchLegacyRobot(mf, env.codec, env.blank, lastSize);
    } else {
      robot, failed := FetchZipRobot(zp, i, env.blank);
    }
    d := dummy || failed;
    PlaceRobot(b, Position(markers, i), robot, d, env.version);
  }

  /** The loop over the file's `n` robots from where the source stands. */
  method LoadRobotList(b: Board, mf: MemFile, zp: ZipReader?, env: RobotEnv, markers: seq<Marker>,
                       dummy0: bool, n: nat)
    requires LoopOk(b, mf, zp, env, markers)
    modifies b.cells, b.robotList, b`robotsByName, mf, zp
    ensures LoopOk(b, mf, zp, env, markers)
    ensures SceneOf(b) == RobotPhase(old(SceneOf(b)), env, markers, old(SourceAt(mf, zp, 0)), dummy0, 0, n)
  {
    var lastSize: nat := 0;
    var dummy := dummy0;
    var i: nat := 0;
    while i < n
      invariant LoopOk(b, mf, zp, env, markers)
      invariant RobotPhase(SceneOf(b), env, markers, SourceAt(mf, zp, lastSize), dummy, i, n) ==
        RobotPhase(old(SceneOf(b)), env, markers, old(SourceAt(mf, zp, 0)), dummy0, 0, n)
      decreases n - i
    {
      lastSize, dummy := LoadRobot(b, mf, zp, env, markers, lastSize, dummy, i);
      i := i + 1;
    }
  }

  /** The robot source the file's version selects: the legacy robot table
      at the header's robot location, or the zip archive from its first
      entry. */
  function StartSource(h: Header): RobotSource
  {
    if h.version <= LegacyFormatVersion then LegacySource(h.robotsLocation, 0) else ZipSource(0)
  }

  /** A load is dummied from the start when the file is a savegame MZM
      loaded outside a game, or comes from a newer version. */
  predicate DummiedFromStart(h: Header, savegame: int)
  {
    h.savegameMode > savegame || MzxVersion < h.version
  }

  /** The robot part of a board-storage load: when the header declares
      robots, the source is opened and the loop runs over them. */
  method LoadRobots(b: Board, mf: MemFile, env: RobotEnv, markers: seq<Marker>, h: Header, savegame: int)
    requires b.Valid() && mf.Valid() && env.fileLength == |mf.data|
    requires env.width == b.width && env.height == b.height && MarkersOnBoard(markers, b.width, b.height)
    requires h.numRobots >= 0 && h.robotsLocation >= 0
    modifies b.cells, b.robotList, b`robotsByName, mf
    ensures mf.Valid()
    ensures SceneOf(b) == RobotPhase(old(SceneOf(b)), env, markers, StartSource(h),
                                     DummiedFromStart(h, savegame), 0, h.numRobots)
  {
    if h.numRobots > 0 {
      var zp: ZipReader? := null;
      if h.version <= LegacyFormatVersion {
        mf.SeekSet(h.robotsLocation);
      } else {
        zp := new ZipReader.Open(env.entries);
      }
      var dummy := h.savegameMode > savegame || MzxVersion < h.version;
      LoadRobotList(b, mf, zp, env, markers, dummy, h.numRobots);
    }
  }
}
