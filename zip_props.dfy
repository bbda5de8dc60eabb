/** The part of the zip archive reader the MZM loader uses to find robots
    (zip_get_next_prop, zip_skip_file, and load_robot reading the file it
    stands on). The archive is its list of entries; the reader stands on
    one of them. The zip code itself is not part of this model. */
module ZipProps {
  import opened Bytes
  import opened MzmBoard

  /** An entry's properties: whether it holds a robot (file id
      FPROP_ROBOT), the robot number it was saved under (read as an `int`
      by the loader), and the robot its contents decode to. */
  datatype ZipProp = ZipProp(isRobot: bool, robotId: int, robot: RobotObj)

  /** The entries save_mzm writes for `robots`, in order: entry `i` holds
      robot number `i`. */
  function SavedArchive(robots: seq<RobotObj>): (r: seq<ZipProp>)
    ensures |r| == |robots|
    ensures forall i :: 0 <= i < |r| ==> r[i] == ZipProp(true, i, robots[i])
  {
    seq(|robots|, i requires 0 <= i < |robots| => ZipProp(true, i, robots[i]))
  }

  class ZipReader {
    const entries: seq<ZipProp>
    var cursor: int

    ghost predicate Valid()
      reads this
    {
      0 <= cursor <= |entries|
    }

    /** zip_open_mem_read over an archive of `archive`'s entries. */
    constructor Open(archive: seq<ZipProp>)
      ensures Valid() && entries == archive && cursor == 0
    {
      entries := archive;
      cursor := 0;
    }

    /** zip_get_next_prop: the properties of the entry the reader stands
        on, or None at the end of the archive; the reader does not move. */
    method NextProp() returns (r: Option<ZipProp>)
      requires Valid()
      ensures r == if cursor < |entries| then Some(entries[cursor]) else None
    {
      if cursor < |entries| {
        r := Some(entries[cursor]);
      } else {
        r := None;
      }
    }

    /** zip_skip_file */
    method SkipFile()
      requires Valid() && cursor < |entries|
      modifies this
      ensures Valid() && cursor == old(cursor) + 1
    {
      cursor := cursor + 1;
    }

    /** load_robot: the robot the entry holds, moving past it. */
    method ReadRobot() returns (robot: RobotObj)
      requires Valid() && cursor < |entries|
      modifies this
      ensures Valid() && cursor == old(cursor) + 1
      ensures robot == entries[old(cursor)].robot
    {
      robot := entries[cursor].robot;
      cursor := cursor + 1;
    }
  }
}
