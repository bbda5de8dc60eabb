/** What the robot loop of load_mzm_common (src/mzm.c) does once the tiles
    of a board-storage MZM are on the board: for each of the file's robots
    it fetches the robot (from the legacy robot table or from the zip
    archive), then places it at the cell where its record was met, or,
    for a dummied load, leaves only its char behind as a custom block. */
module MzmRobots {
  import opened Bytes
  import opened MzmFormat
  import opened MzmBoard
  import opened MzmTiles
  import opened ZipProps

  /** robot_x_locations / robot_y_locations as the robot loop reads them:
      the robots past the ones noted are not placed. */
  function Position(markers: seq<Marker>, i: int): Marker
  {
    if 0 <= i < |markers| then markers[i] else NotPlaced
  }

  // ---------------------------------------------------------------------
  // Fetching a robot

  /** The legacy robot reader's collaborators: the size
      legacy_calculate_partial_robot_size gives for the file's savegame
      mode and version, the size legacy_load_robot_calculate_size computes
      for the robot at a position, and the robot
      legacy_load_robot_from_memory decodes there. */
  datatype LegacyCodec = LegacyCodec(partialSize: int, calcSize: int -> nat, decode: int -> RobotObj)

  /** Where the next robot comes from: the legacy table, with the cursor
      and the last computed robot size (robot_calculated_size, which
      survives from one robot to the next), or the zip archive, with the
      entry the reader stands on. */
  datatype RobotSource = LegacySource(pos: int, lastSize: nat) | ZipSource(cursor: int)

  /** A fetched robot, the source after it, and whether the fetch failed
      (which dummies this robot and every later one). */
  datatype Fetched = Fetched(robot: RobotObj, source: RobotSource, failed: bool)

  /** The next legacy robot at `pos`: when its fixed part, and then its
      computed size, fit before the end of the file it is decoded and the
      cursor moves past it; otherwise the fetch fails, the robot stays
      blank and the cursor is put at the end of the file and then moved
      on by the computed size all the same. */
  function LegacyFetch(codec: LegacyCodec, fileLength: int, pos: int, lastSize: nat, blank: RobotObj): Fetched
  {
    if pos + codec.partialSize <= fileLength then
      var size := codec.calcSize(pos);
      if pos + size <= fileLength then Fetched(codec.decode(pos), LegacySource(pos + size, size), false)
      else Fetched(blank, LegacySource(fileLength + size, size), true)
    else Fetched(blank, LegacySource(fileLength + lastSize, lastSize), true)
  }

  /** A successful legacy fetch decodes the robot where the cursor stood
      and leaves the cursor right after it, inside the file; a failed one
      leaves a blank robot and the cursor at or past the end. */
  lemma LegacyFetchCursor(codec: LegacyCodec, fileLength: int, pos: int, lastSize: nat, blank: RobotObj)
    ensures var f := LegacyFetch(codec, fileLength, pos, lastSize, blank);
      f.source.LegacySource? &&
      (!f.failed ==>
        f.robot == codec.decode(pos) && f.source.pos == pos + codec.calcSize(pos) <= fileLength &&
        f.source.lastSize == codec.calcSize(pos)) &&
      (f.failed ==> f.robot == blank && f.source.pos >= fileLength)
  {
  }

  /** Once a legacy fetch has failed, every later one fails too, so the
      rest of the robots are dummied (as long as the fixed part of a
      robot is not empty). */
  lemma LegacyFailureSticks(codec: LegacyCodec, fileLength: int, pos: int, lastSize: nat, blank: RobotObj)
    requires LegacyFetch(codec, fileLength, pos, lastSize, blank).failed && codec.partialSize > 0
    ensures var f := LegacyFetch(codec, fileLength, pos, lastSize, blank);
      LegacyFetch(codec, fileLength, f.source.pos, f.source.lastSize, blank).failed
  {
  }

  /** How a zip fetch ended: the robot was loaded, it is missing from the
      archive (a later robot's entry came first), or the archive ran out. */
  datatype ZipOutcome = Loaded | Missing | Exhausted

  datatype ZipFetched = ZipFetched(robot: RobotObj, cursor: int, outcome: ZipOutcome)

  /** The search for robot `i` from entry `cursor` on: entries that are not
      robots or hold an earlier robot are skipped; an entry holding a later
      robot stops the search with a blank robot and stays for the next
      one; the entry holding robot `i` is loaded. */
  function ZipFetch(entries: seq<ZipProp>, cursor: int, i: int, blank: RobotObj): (r: ZipFetched)
    requires 0 <= cursor <= |entries|
    ensures cursor <= r.cursor <= |entries|
    decreases |entries| - cursor
  {
    if cursor == |entries| then ZipFetched(blank, cursor, Exhausted)
    else
      var e := entries[cursor];
      if !e.isRobot || e.robotId < i then ZipFetch(entries, cursor + 1, i, blank)
      else if e.robotId > i then ZipFetched(blank, cursor, Missing)
      else ZipFetched(e.robot, cursor + 1, Loaded)
  }

  /** An entry the search for robot `i` passes over. */
  predicate Passed(e: ZipProp, i: int)
  {
    !e.isRobot || e.robotId < i
  }

  /** The search stops at the first entry from the cursor on that holds
      robot `i` or a later one: it loads that entry when it holds robot
      `i` and leaves it otherwise; with no such entry the archive runs
      out and the robot stays blank. */
  lemma {:induction false} ZipFetchFinds(entries: seq<ZipProp>, cursor: int, i: int, blank: RobotObj)
    requires 0 <= cursor <= |entries|
    ensures var r := ZipFetch(entries, cursor, i, blank);
      var stop := if r.outcome == Loaded then r.cursor - 1 else r.cursor;
      cursor <= stop <= |entries| &&
      (forall k :: cursor <= k < stop ==> Passed(entries[k], i)) &&
      (r.outcome == Exhausted ==> stop == |entries| && r.robot == blank) &&
      (r.outcome == Missing ==> stop < |entries| && entries[stop].isRobot && entries[stop].robotId > i &&
                                r.robot == blank) &&
      (r.outcome == Loaded ==> stop < |entries| && entries[stop] == ZipProp(true, i, r.robot))
    decreases |entries| - cursor
  {
    if cursor < |entries| && Passed(entries[cursor], i) {
      ZipFetchFinds(entries, cursor + 1, i, blank);
    }
  }

  /** Fetching robot `i` from the archive a save wrote, standing on entry
      `i`, loads the `i`-th robot saved. */
  lemma ZipFetchSaved(robots: seq<RobotObj>, i: int, blank: RobotObj)
    requires 0 <= i < |robots|
    ensures ZipFetch(SavedArchive(robots), i, i, blank) == ZipFetched(robots[i], i + 1, Loaded)
  {
  }

  /** The rest of what the robot loop uses: the legacy reader, the file
      length, the archive's entries, the blank robot create_blank_robot
      makes, the board's size and the world's version. */
  datatype RobotEnv = RobotEnv(codec: LegacyCodec, fileLength: int, entries: seq<ZipProp>, blank: RobotObj,
                               width: int, height: int, version: int)

  predicate SourceOk(env: RobotEnv, src: RobotSource)
  {
    src.ZipSource? ==> 0 <= src.cursor <= |env.entries|
  }

  /** The next robot, from whichever source the file's version selects;
      a zip fetch fails when the archive runs out. */
  function Fetch(env: RobotEnv, src: RobotSource, i: int): (f: Fetched)
    requires SourceOk(env, src)
    ensures SourceOk(env, f.source) && f.source.LegacySource? == src.LegacySource?
  {
    match src
    case LegacySource(pos, lastSize) => LegacyFetch(env.codec, env.fileLength, pos, lastSize, env.blank)
    case ZipSource(cursor) =>
      var z := ZipFetch(env.entries, cursor, i, env.blank);
      Fetched(z.robot, ZipSource(z.cursor), z.outcome == Exhausted)
  }

  // ---------------------------------------------------------------------
  // Placing a robot

  /** The board's cells, robot slots and name index. */
  datatype Scene = Scene(cells: seq<Cell>, slots: seq<Option<RobotObj>>, byName: seq<Option<RobotObj>>)

  /** A marker that is either "not placed" or a cell of the board. */
  predicate OnBoard(m: Marker, width: int, height: int)
  {
    m.At? ==> 0 <= m.x < width && 0 <= m.y < height
  }

  predicate MarkersOnBoard(markers: seq<Marker>, width: int, height: int)
  {
    forall k :: 0 <= k < |markers| ==> OnBoard(markers[k], width, height)
  }

  /** A scene the robot loop can work on: one cell per board position and
      a slot table with the global robot's slot. */
  predicate SceneOk(s: Scene, width: int, height: int)
  {
    |s.cells| == width * height && |s.slots| >= 1
  }

  /** The cell index of a marker on the board. */
  function MarkerIndex(m: Marker, width: int, height: int): (k: int)
    requires m.At? && OnBoard(m, width, height)
    ensures 0 <= k < width * height
  {
    RectIndex(width, height, m.x, m.y);
    m.x + m.y * width
  }

  /** Robot `r` met at `m`, as the loop places it with the player check
      on every branch: a player cell is left alone; a dummied robot leaves
      a custom block showing its char; otherwise the robot takes the first
      free slot, gets the world's version and its position, is added to
      the name index, and its cell's param becomes the slot; with no free
      slot the cell is emptied. */
  function Place(s: Scene, width: int, height: int, m: Marker, r: RobotObj, dummy: bool, version: int): (t: Scene)
    requires SceneOk(s, width, height) && OnBoard(m, width, height)
    ensures |t.cells| == |s.cells| && |t.slots| == |s.slots|
  {
    if m.NotPlaced? then s
    else
      var o := MarkerIndex(m, width, height);
      var c := s.cells[o];
      if c.id == Player then s
      else if dummy then s.(cells := s.cells[o := c.(id := CustomBlock, param := r.robotChar)])
      else
        var slot := FreeSlot(s.slots, 1);
        if slot == -1 then s.(cells := s.cells[o := c.(id := 0, param := 0, color := 7)])
        else
          var placed := r.(xpos := m.x, ypos := m.y, worldVersion := version);
          Scene(s.cells[o := c.(param := slot)], s.slots[slot := Some(placed)], s.byName + [Some(placed)])
  }

  /** The same, as src/mzm.c writes it: only a robot that found a slot
      checks for the player; a dummied robot and a robot without a slot
      overwrite whatever is at its cell. */
  function PlaceAsWritten(s: Scene, width: int, height: int, m: Marker, r: RobotObj, dummy: bool, version: int)
    : (t: Scene)
    requires SceneOk(s, width, height) && OnBoard(m, width, height)
  {
    if m.NotPlaced? then s
    else
      var o := MarkerIndex(m, width, height);
      var c := s.cells[o];
      if dummy then s.(cells := s.cells[o := c.(id := CustomBlock, param := r.robotChar)])
      else
        var slot := FreeSlot(s.slots, 1);
        if slot == -1 then s.(cells := s.cells[o := c.(id := 0, param := 0, color := 7)])
        else if c.id == Player then s
        else
          var placed := r.(xpos := m.x, ypos := m.y, worldVersion := version);
          Scene(s.cells[o := c.(param := slot)], s.slots[slot := Some(placed)], s.byName + [Some(placed)])
  }

  /** The two agree everywhere except at a player's cell. */
  lemma PlaceAgrees(s: Scene, width: int, height: int, m: Marker, r: RobotObj, dummy: bool, version: int)
    requires SceneOk(s, width, height) && OnBoard(m, width, height)
    requires m.At? ==> s.cells[MarkerIndex(m, width, height)].id != Player
    ensures PlaceAsWritten(s, width, height, m, r, dummy, version) == Place(s, width, height, m, r, dummy, version)
  {
  }

  /** A robot record met on the player's cell in a dummied load: as
      written, the player's cell becomes a custom block showing the
      robot's char, where the player check leaves it alone. */
  lemma DummyOverwritesPlayer(s: Scene, width: int, height: int, m: Marker, r: RobotObj, version: int)
    requires SceneOk(s, width, height) && OnBoard(m, width, height) && m.At?
    requires s.cells[MarkerIndex(m, width, height)].id == Player
    ensures var o := MarkerIndex(m, width, height);
      PlaceAsWritten(s, width, height, m, r, true, version).cells[o] ==
        s.cells[o].(id := CustomBlock, param := r.robotChar) &&
      Place(s, width, height, m, r, true, version) == s
  {
  }

  /** A robot record met on the player's cell when every slot is taken:
      as written, the player's cell is emptied. */
  lemma FullTableOverwritesPlayer(s: Scene, width: int, height: int, m: Marker, r: RobotObj, version: int)
    requires SceneOk(s, width, height) && OnBoard(m, width, height) && m.At?
    requires s.cells[MarkerIndex(m, width, height)].id == Player
    requires forall k :: 1 <= k < |s.slots| ==> s.slots[k].Some?
    ensures var o := MarkerIndex(m, width, height);
      PlaceAsWritten(s, width, height, m, r, false, version).cells[o] ==
        s.cells[o].(id := 0, param := 0, color := 7) &&
      Place(s, width, height, m, r, false, version) == s
  {
  }

  /** Placing a robot changes at most the marker's cell, never a player's
      cell, and never a slot in use; the name index only grows; a dummied
      robot touches neither the slots nor the name index. */
  lemma PlaceFrame(s: Scene, width: int, height: int, m: Marker, r: RobotObj, dummy: bool, version: int)
    requires SceneOk(s, width, height) && OnBoard(m, width, height)
    ensures var t := Place(s, width, height, m, r, dummy, version);
      (forall k :: 0 <= k < |s.cells| && (m.NotPlaced? || k != MarkerIndex(m, width, height)) ==>
         t.cells[k] == s.cells[k]) &&
      (forall k :: 0 <= k < |s.cells| && s.cells[k].id == Player ==> t.cells[k] == s.cells[k]) &&
      (forall k :: 0 <= k < |s.slots| && s.slots[k].Some? ==> t.slots[k] == s.slots[k]) &&
      s.byName <= t.byName &&
      (dummy ==> t.slots == s.slots && t.byName == s.byName)
  {
  }

  /** A robot that is placed goes into a slot that was free, after the
      global robot's, knows its position, and is the new last entry of
      the name index; its cell's param is the slot. */
  lemma PlaceNewRobot(s: Scene, width: int, height: int, m: Marker, r: RobotObj, dummy: bool, version: int, k: int)
    requires SceneOk(s, width, height) && OnBoard(m, width, height)
    requires 0 <= k < |s.slots|
    requires Place(s, width, height, m, r, dummy, version).slots[k] != s.slots[k]
    ensures var t := Place(s, width, height, m, r, dummy, version);
      m.At? && !dummy && 1 <= k && s.slots[k].None? &&
      t.slots[k] == Some(r.(xpos := m.x, ypos := m.y, worldVersion := version)) &&
      t.byName == s.byName + [t.slots[k]] &&
      t.cells[MarkerIndex(m, width, height)].param == k
  {
  }

  // ---------------------------------------------------------------------
  // The robot loop

  /** Robots `i` up to `n` of the file, each fetched and then placed; a
      failed fetch dummies that robot and every later one. */
  function RobotPhase(s: Scene, env: RobotEnv, markers: seq<Marker>, src: RobotSource, dummy: bool,
                      i: nat, n: nat): (t: Scene)
    requires SceneOk(s, env.width, env.height) && SourceOk(env, src)
    requires MarkersOnBoard(markers, env.width, env.height)
    ensures SceneOk(t, env.width, env.height) && |t.slots| == |s.slots|
    decreases n - i
  {
    if i >= n then s
    else
      var f := Fetch(env, src, i);
      var d := dummy || f.failed;
      var m := Position(markers, i);
      assert OnBoard(m, env.width, env.height);
      RobotPhase(Place(s, env.width, env.height, m, f.robot, d, env.version), env, markers, f.source, d, i + 1, n)
  }

  /** The cell index of one of the markers, or -1. */
  predicate Marked(markers: seq<Marker>, width: int, height: int, k: int)
    requires MarkersOnBoard(markers, width, height)
  {
    exists j :: 0 <= j < |markers| && markers[j].At? && MarkerIndex(markers[j], width, height) == k
  }

  /** The robot loop changes only the cells where robot records were met,
      never a player's cell and never a slot in use; the name index only
      grows; a load dummied from the start touches neither the slots nor
      the name index. */
  lemma {:induction false} RobotPhaseFrame(s: Scene, env: RobotEnv, markers: seq<Marker>, src: RobotSource,
                                           dummy: bool, i: nat, n: nat)
    requires SceneOk(s, env.width, env.height) && SourceOk(env, src)
    requires MarkersOnBoard(markers, env.width, env.height)
    ensures var t := RobotPhase(s, env, markers, src, dummy, i, n);
      (forall k :: 0 <= k < |s.cells| && !Marked(markers, env.width, env.height, k) ==> t.cells[k] == s.cells[k]) &&
      (forall k :: 0 <= k < |s.cells| && s.cells[k].id == Player ==> t.cells[k] == s.cells[k]) &&
      (forall k :: 0 <= k < |s.slots| && s.slots[k].Some? ==> t.slots[k] == s.slots[k]) &&
      s.byName <= t.byName &&
      (dummy ==> t.slots == s.slots && t.byName == s.byName)
    decreases n - i
  {
    if i < n {
      var f := Fetch(env, src, i);
      var d := dummy || f.failed;
      var m := Position(markers, i);
      var s1 := Place(s, env.width, env.height, m, f.robot, d, env.version);
      PlaceFrame(s, env.width, env.height, m, f.robot, d, env.version);
      RobotPhaseFrame(s1, env, markers, f.source, d, i + 1, n);
      if m.At? {
        assert markers[i] == m;
        assert Marked(markers, env.width, env.height, MarkerIndex(m, env.width, env.height));
      }
    }
  }

  /** With no robot record met on the board (every robot_x_locations
      entry -1), the loop still fetches each robot but places none of
      them, so the scene is as it was. */
  lemma {:induction false} RobotPhaseUnplaced(s: Scene, env: RobotEnv, src: RobotSource, dummy: bool, i: nat, n: nat)
    requires SceneOk(s, env.width, env.height) && SourceOk(env, src)
    ensures RobotPhase(s, env, [], src, dummy, i, n) == s
    decreases n - i
  {
    if i < n {
      var f := Fetch(env, src, i);
      RobotPhaseUnplaced(s, env, f.source, dummy || f.failed, i + 1, n);
    }
  }
}
