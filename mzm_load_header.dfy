/** load_mzm_header: the cursor reads of the three header generations
    (src/mzm.c). */
module MzmLoadHeader {
  import opened Bytes
  import opened MzmFormat
  import opened MemFiles

  /** The MZMX fields after the magic: byte-sized dimensions and ten
      unused bytes. */
  method ReadMzmXFields(mf: MemFile) returns (h: Header)
    requires mf.Valid() && mf.pos == 4 && |mf.data| >= MinHeaderSize
    modifies mf
    ensures mf.Valid() && mf.pos == MinHeaderSize
    ensures h == Header(mf.data[4], mf.data[5], 0, 0, 0, 0, V283, MinHeaderSize)
  {
    var width := mf.GetC();
    var height := mf.GetC();
    mf.Skip(10);
    var dataStart := mf.Tell();
    h := Header(width, height, 0, 0, 0, 0, V283, dataStart);
  }

  /** The fields MZM2 and MZM3 share after the magic: word dimensions, the
      robot table position, the robot count, the storage mode and the
      savegame mode. */
  method ReadCommonFields(mf: MemFile) returns (h: Header)
    requires mf.Valid() && mf.pos == 4 && |mf.data| >= MinHeaderSize
    modifies mf
    ensures mf.Valid() && mf.pos == 15
    ensures h == Header(LeWord(mf.data, 4), LeWord(mf.data, 6), mf.data[13], mf.data[14], mf.data[12],
                        LeDword(mf.data, 8), V283, 0)
  {
    var width := mf.GetW();
    var height := mf.GetW();
    var robotsLocation := mf.GetD();
    var numRobots := mf.GetC();
    var storageMode := mf.GetC();
    var savegameMode := mf.GetC();
    h := Header(width, height, storageMode, savegameMode, numRobots, robotsLocation, V283, 0);
  }

  /** load_mzm_header over the whole of `mf`: the header, and the cursor
      left where the tiles begin; None for a buffer shorter than 16 bytes,
      an unknown magic, or an MZM3 buffer shorter than 20 bytes. */
  method LoadHeader(mf: MemFile) returns (r: Option<Header>)
    requires mf.Valid() && mf.pos == 0
    modifies mf
    ensures mf.Valid()
    ensures r == ParseHeader(mf.data)
    ensures r.Some? ==> mf.pos == r.value.dataStart
  {
    if |mf.data| < MinHeaderSize {
      return None;
    }
    var magic := mf.Read(4);
    assert magic == mf.data[..4];
    if magic == MagicMzmX {
      var h := ReadMzmXFields(mf);
      r := Some(h);
    } else if magic == Magic2 {
      var h := ReadCommonFields(mf);
      mf.Skip(1);
      var dataStart := mf.Tell();
      r := Some(h.(dataStart := dataStart));
    } else if magic == Magic3 {
      if |mf.data| < HeaderSize {
        return None;
      }
      var h := ReadCommonFields(mf);
      var version := mf.GetW();
      mf.Skip(3);
      var dataStart := mf.Tell();
      r := Some(h.(version := version, dataStart := dataStart));
    } else {
      r := None;
    }
  }
}
