/** The parts of a board and a world the MZM codec reads and writes. The
    six per-cell level arrays (id, param, color and the under triple) are
    one array of `Cell`, the overlay's and the vlayer's char and color
    arrays one array of `Glyph` each. A cell field holds the byte its
    `char` holds. */
module MzmBoard {
  import opened Bytes
  import opened MzmFormat

  datatype Cell = Cell(id: int, param: int, color: int, underId: int, underParam: int, underColor: int)

  datatype Glyph = Glyph(ch: int, color: int)

  /** The fields of a robot the codec touches; its program is the robot
      codec's business. */
  datatype RobotObj = RobotObj(name: seq<int>, robotChar: int, xpos: int, ypos: int, worldVersion: int)

  /** Robot slots of a board: slot 0 is the global robot, ids are bytes. */
  const RobotSlots: int := 256

  /** Total reads of the level arrays: a cell past the end reads as empty. */
  function CellAt(cells: seq<Cell>, i: int): Cell
  {
    if 0 <= i < |cells| then cells[i] else Cell(0, 0, 0, 0, 0, 0)
  }

  function GlyphAt(glyphs: seq<Glyph>, i: int): Glyph
  {
    if 0 <= i < |glyphs| then glyphs[i] else Glyph(0, 0)
  }

  function ByteAt(s: seq<int>, i: int): int
  {
    if 0 <= i < |s| then s[i] else 0
  }

  /** find_free_robot over a table that does not grow: the first empty
      slot after the global robot's, or -1. */
  function FreeSlot(slots: seq<Option<RobotObj>>, from: nat): (r: int)
    requires 1 <= from <= |slots|
    ensures r == -1 || from <= r < |slots|
    ensures r == -1 <==> forall k :: from <= k < |slots| ==> slots[k].Some?
    ensures r != -1 ==> slots[r].None? && forall k :: from <= k < r ==> slots[k].Some?
    decreases |slots| - from
  {
    if from == |slots| then -1
    else if slots[from].None? then from
    else FreeSlot(slots, from + 1)
  }

  /** The board's cell array covers `width` x `height`; a region inside it
      starting at (px, py) has its cells at row-major offsets. */
  lemma RectIndex(width: int, height: int, px: int, py: int)
    requires 0 <= px < width && 0 <= py < height
    ensures 0 <= py * width + px < width * height
  {
    assert py * width <= (height - 1) * width;
  }

  class Board {
    const width: int
    const height: int
    const cells: array<Cell>
    const overlay: array<Glyph>
    /** robot_list: slot -> robot, None for NULL. */
    const robotList: array<Option<RobotObj>>
    var overlayMode: int
    /** robot_list_name_sorted up to num_robots_active. */
    var robotsByName: seq<Option<RobotObj>>

    ghost predicate Valid()
      reads this
    {
      0 < width && 0 < height && cells.Length == width * height &&
      overlay.Length == width * height && robotList.Length == RobotSlots
    }

    constructor (w: int, h: int, level: array<Cell>, over: array<Glyph>, robots: array<Option<RobotObj>>)
      requires 0 < w && 0 < h && level.Length == w * h && over.Length == w * h
      requires robots.Length == RobotSlots
      ensures Valid() && width == w && height == h
      ensures cells == level && overlay == over && robotList == robots
      ensures overlayMode == 0 && robotsByName == []
    {
      width, height := w, h;
      cells, overlay, robotList := level, over, robots;
      overlayMode := 0;
      robotsByName := [];
    }

    /** setup_overlay: an overlay that is off is switched on in mode 3;
        one already on keeps its mode. */
    method SetupOverlay()
      modifies this`overlayMode
      ensures overlayMode == if old(overlayMode) == 0 then 3 else old(overlayMode)
    {
      if overlayMode == 0 {
        overlayMode := 3;
      }
    }
  }

  /** The world's vlayer and version. */
  class World {
    const vlayer: array<Glyph>
    const vlayerWidth: int
    const vlayerHeight: int
    const version: int

    ghost predicate Valid()
    {
      0 < vlayerWidth && 0 < vlayerHeight && vlayer.Length == vlayerWidth * vlayerHeight
    }

    constructor (layer: array<Glyph>, w: int, h: int, worldVersion: int)
      requires 0 < w && 0 < h && layer.Length == w * h
      ensures Valid() && vlayer == layer && vlayerWidth == w && vlayerHeight == h
      ensures version == worldVersion
    {
      vlayer, vlayerWidth, vlayerHeight := layer, w, h;
      version := worldVersion;
    }
  }
}
