/** The MZM region format: the three header generations, the header the
    saver writes and patches, the archive entry names of embedded robots,
    the validation a loader applies before touching anything, and the
    clipping of the rectangle against its destination (src/mzm.c). */
module MzmFormat {
  import opened Bytes

  // Board thing ids the codec treats specially.
  const CustomBlock: int := 5
  const Sensor: int := 122
  const RobotPushable: int := 123
  const Robot: int := 124
  const Sign: int := 125
  const Scroll: int := 126
  const Player: int := 127

  predicate IsRobot(id: int) { id == RobotPushable || id == Robot }

  predicate IsSignScroll(id: int) { id == Sign || id == Scroll }

  // World format versions.
  const V283: int := 0x0253
  const LegacyFormatVersion: int := 0x0254
  const MzxVersion: int := 0x025B

  /** The header written by the saver, and the one MZM3 requires. */
  const HeaderSize: int := 20
  /** The shortest buffer any header generation accepts. */
  const MinHeaderSize: int := 16

  const MagicMzmX: seq<int> := [77, 90, 77, 88]
  const Magic2: seq<int> := [77, 90, 77, 50]
  const Magic3: seq<int> := [77, 90, 77, 51]

  /** MZM_STORAGE_MODE_BOARD (0): six bytes per cell; MZM_STORAGE_MODE_LAYER
      (1): a char and a color per cell. */
  datatype StorageMode = BoardStorage | LayerStorage

  function StorageByte(m: StorageMode): (b: int)
    ensures b == 0 <==> m == BoardStorage
  {
    if m == BoardStorage then 0 else 1
  }

  /** Bytes per cell of the tile payload for a stored storage-mode byte:
      any nonzero byte counts as layer storage. */
  function Stride(storageMode: int): (n: int)
    ensures n == 2 || n == 6
  {
    if storageMode != 0 then 2 else 6
  }

  /** The save modes of save_mzm. */
  datatype SaveMode = BoardToBoard | OverlayToLayer | BoardToLayer | VlayerToLayer

  /** The storage chosen by save_mzm_calculate_size. */
  function StorageFor(mode: SaveMode): (s: StorageMode)
  {
    if mode == BoardToBoard then BoardStorage else LayerStorage
  }

  lemma StorageForLayer(mode: SaveMode)
    ensures StorageFor(mode) == LayerStorage <==> mode != BoardToBoard
  {
  }

  // ---------------------------------------------------------------------
  // Headers

  /** The canonical header load_mzm_header fills in; `dataStart` is the
      cursor position after it. */
  datatype Header = Header(width: int, height: int, storageMode: int, savegameMode: int,
                           numRobots: int, robotsLocation: int, version: int, dataStart: int)

  /** load_mzm_header over a buffer of `|data|` bytes. */
  function ParseHeader(data: seq<int>): (r: Option<Header>)
    requires AllBytes(data)
    ensures r.Some? ==> |data| >= MinHeaderSize && r.value.dataStart <= |data|
    ensures r.Some? ==> 0 <= r.value.width < 0x1_0000 && 0 <= r.value.height < 0x1_0000
    ensures r.Some? ==> IsByte(r.value.storageMode) && IsByte(r.value.savegameMode) && IsByte(r.value.numRobots)
    ensures r.Some? ==> r.value.dataStart == MinHeaderSize || r.value.dataStart == HeaderSize
  {
    if |data| < MinHeaderSize then None
    else if data[..4] == MagicMzmX then
      Some(Header(data[4], data[5], 0, 0, 0, 0, V283, 16))
    else if data[..4] == Magic2 then
      Some(Header(LeWord(data, 4), LeWord(data, 6), data[13], data[14], data[12],
                  LeDword(data, 8), V283, 16))
    else if data[..4] == Magic3 then
      if |data| < HeaderSize then None
      else Some(Header(LeWord(data, 4), LeWord(data, 6), data[13], data[14], data[12],
                       LeDword(data, 8), LeWord(data, 15), 20))
    else None
  }

  /** The twenty bytes save_mzm_common writes before the tiles: MZM3, the
      dimensions, zero robot offset/count, the storage mode, a zero
      savegame mode, the program's version and three reserved zeros. */
  function SavedHeader(width: int, height: int, storage: StorageMode): (r: seq<int>)
    ensures |r| == HeaderSize && AllBytes(r)
  {
    [77, 90, 77, 51, Low8(width), Low8(width / 256), Low8(height), Low8(height / 256),
     0, 0, 0, 0, 0, StorageByte(storage), 0, Low8(MzxVersion), Low8(MzxVersion / 256), 0, 0, 0]
  }

  /** The header after the robot fields are rewritten in place from byte
      8: the robot table position, the robot count, the storage mode left
      as it was, and the savegame mode. */
  function PatchedHeader(header: seq<int>, tablePosition: int, numRobots: int, savegame: int): (r: seq<int>)
    requires |header| == HeaderSize
    ensures |r| == HeaderSize
    ensures forall k :: 8 <= k < 12 ==> r[k] == DwordBytes(tablePosition)[k - 8]
    ensures r[12] == Low8(numRobots) && r[14] == Low8(savegame)
    ensures forall k :: 0 <= k < HeaderSize && !(8 <= k <= 12) && k != 14 ==> r[k] == header[k]
  {
    seq(HeaderSize, i requires 0 <= i < HeaderSize =>
      if 8 <= i < 12 then DwordBytes(tablePosition)[i - 8]
      else if i == 12 then Low8(numRobots)
      else if i == 14 then Low8(savegame)
      else header[i])
  }

  lemma WordAt(s: seq<int>, i: int, x: int)
    requires 0 <= x < 0x1_0000 && 0 <= i && i + 2 <= |s|
    requires s[i] == Low8(x) && s[i + 1] == Low8(x / 256)
    ensures IsByte(s[i]) && IsByte(s[i + 1]) && LeWord(s, i) == x
  {
  }

  /** An MZM3 buffer of at least twenty bytes yields its fields at their
      fixed offsets. */
  lemma Mzm3Fields(data: seq<int>)
    requires AllBytes(data) && |data| >= HeaderSize && data[..4] == Magic3
    ensures ParseHeader(data) == Some(Header(LeWord(data, 4), LeWord(data, 6), data[13], data[14],
                                             data[12], LeDword(data, 8), LeWord(data, 15), HeaderSize))
  {
    MagicsDistinct();
  }

  /** A buffer laid out as the saver lays out its header parses to the
      values the saver wrote. */
  lemma Mzm3Layout(data: seq<int>, width: int, height: int, tablePosition: int, numRobots: int,
                   storageMode: int, savegame: int)
    requires AllBytes(data) && |data| >= HeaderSize && data[..4] == Magic3
    requires 0 <= width < 0x1_0000 && 0 <= height < 0x1_0000 && 0 <= tablePosition < 0x8000_0000
    requires data[4] == Low8(width) && data[5] == Low8(width / 256)
    requires data[6] == Low8(height) && data[7] == Low8(height / 256)
    requires data[8..12] == DwordBytes(tablePosition)
    requires data[12] == numRobots && data[13] == storageMode && data[14] == savegame
    requires data[15] == Low8(MzxVersion) && data[16] == Low8(MzxVersion / 256)
    ensures ParseHeader(data) ==
      Some(Header(width, height, storageMode, savegame, numRobots, tablePosition, MzxVersion, HeaderSize))
  {
    WordAt(data, 4, width);
    WordAt(data, 6, height);
    DwordRoundTrip(tablePosition, data, 8);
    WordAt(data, 15, MzxVersion);
    Mzm3Fields(data);
  }

  lemma DwordZero()
    ensures DwordBytes(0) == [0, 0, 0, 0]
  {
  }

  /** An MZM3 header reads the same whatever follows it. */
  lemma Mzm3Prefix(h: seq<int>, rest: seq<int>)
    requires AllBytes(h) && AllBytes(rest) && |h| == HeaderSize && h[..4] == Magic3
    ensures AllBytes(h + rest) && ParseHeader(h + rest) == ParseHeader(h)
  {
    var data := h + rest;
    assert forall k :: 0 <= k < HeaderSize ==> data[k] == h[k];
    assert data[..4] == h[..4];
    Mzm3Fields(data);
    Mzm3Fields(h);
  }

  /** The header a saved MZM yields on loading: everything the saver wrote
      comes back. */
  lemma SavedHeaderParses(width: int, height: int, storage: StorageMode, rest: seq<int>)
    requires 0 <= width < 0x1_0000 && 0 <= height < 0x1_0000 && AllBytes(rest)
    ensures AllBytes(SavedHeader(width, height, storage) + rest)
    ensures ParseHeader(SavedHeader(width, height, storage) + rest) ==
      Some(Header(width, height, StorageByte(storage), 0, 0, 0, MzxVersion, HeaderSize))
  {
    var h := SavedHeader(width, height, storage);
    assert h[..4] == Magic3;
    DwordZero();
    assert h[8..12] == [0, 0, 0, 0];
    Mzm3Layout(h, width, height, 0, 0, StorageByte(storage), 0);
    Mzm3Prefix(h, rest);
  }

  /** The patched header on its own. */
  lemma PatchedHeaderLayout(width: int, height: int, storage: StorageMode, tablePosition: int,
                            numRobots: int, savegame: int)
    requires 0 <= width < 0x1_0000 && 0 <= height < 0x1_0000
    requires 0 <= tablePosition < 0x8000_0000 && 0 <= numRobots < 256 && 0 <= savegame <= 1
    ensures var h := PatchedHeader(SavedHeader(width, height, storage), tablePosition, numRobots, savegame);
      AllBytes(h) && h[..4] == Magic3 &&
      ParseHeader(h) ==
      Some(Header(width, height, StorageByte(storage), savegame, numRobots, tablePosition, MzxVersion, HeaderSize))
  {
    var s := SavedHeader(width, height, storage);
    var h := PatchedHeader(s, tablePosition, numRobots, savegame);
    assert forall k :: 0 <= k < HeaderSize ==> IsByte(h[k]);
    assert h[..4] == Magic3;
    assert h[8..12] == DwordBytes(tablePosition);
    Low8OfByte(numRobots);
    Low8OfByte(savegame);
    Mzm3Layout(h, width, height, tablePosition, numRobots, StorageByte(storage), savegame);
  }

  /** The patched header yields the robot table position, the robot count
      and the savegame mode written into it. */
  lemma PatchedHeaderParses(width: int, height: int, storage: StorageMode, tablePosition: int,
                            numRobots: int, savegame: int, rest: seq<int>)
    requires 0 <= width < 0x1_0000 && 0 <= height < 0x1_0000 && AllBytes(rest)
    requires 0 <= tablePosition < 0x8000_0000 && 0 <= numRobots < 256 && 0 <= savegame <= 1
    ensures AllBytes(PatchedHeader(SavedHeader(width, height, storage), tablePosition, numRobots, savegame) + rest)
    ensures ParseHeader(PatchedHeader(SavedHeader(width, height, storage), tablePosition, numRobots, savegame) + rest) ==
      Some(Header(width, height, StorageByte(storage), savegame, numRobots, tablePosition, MzxVersion, HeaderSize))
  {
    var h := PatchedHeader(SavedHeader(width, height, storage), tablePosition, numRobots, savegame);
    PatchedHeaderLayout(width, height, storage, tablePosition, numRobots, savegame);
    Mzm3Prefix(h, rest);
  }

  /** An MZMX buffer: board storage, no robots, savegame 0, version 2.83
      and byte-sized dimensions. */
  lemma MzmXDefaults(data: seq<int>)
    requires AllBytes(data) && |data| >= MinHeaderSize && data[..4] == MagicMzmX
    ensures ParseHeader(data) == Some(Header(data[4], data[5], 0, 0, 0, 0, V283, MinHeaderSize))
  {
  }

  /** The three magics are told apart by their last byte. */
  lemma MagicsDistinct()
    ensures MagicMzmX != Magic2 && MagicMzmX != Magic3 && Magic2 != Magic3
  {
    assert MagicMzmX[3] != Magic2[3] && MagicMzmX[3] != Magic3[3] && Magic2[3] != Magic3[3];
  }

  /** Every accepted buffer starts with one of the three magics, is at
      least 16 bytes long, and at least 20 when it is MZM3; only MZM3
      carries its own version. */
  lemma HeaderRejections(data: seq<int>)
    requires AllBytes(data)
    ensures ParseHeader(data).Some? <==>
      |data| >= MinHeaderSize &&
      (data[..4] == MagicMzmX || data[..4] == Magic2 || (data[..4] == Magic3 && |data| >= HeaderSize))
    ensures ParseHeader(data).Some? && data[..4] != Magic3 ==> ParseHeader(data).value.version == V283
  {
    if |data| >= MinHeaderSize {
      MagicsDistinct();
    }
  }

  // ---------------------------------------------------------------------
  // Archive entry names

  function HexDigit(d: int): (c: int)
    requires 0 <= d < 16
  {
    if d < 10 then 48 + d else 55 + d
  }

  /** "r%2.2X" of `(unsigned char)i`: the name robot number `i` of a saved
      region is stored under. */
  function EntryName(i: int): (name: seq<int>)
    ensures |name| == 3 && name[0] == 114
  {
    var b := Low8(i);
    [114, HexDigit(b / 16), HexDigit(b % 16)]
  }

  lemma HexDigitInjective(a: int, b: int)
    requires 0 <= a < 16 && 0 <= b < 16 && HexDigit(a) == HexDigit(b)
    ensures a == b
  {
  }

  /** Two robots of one region never share an entry name: at most 256 can
      be told apart, and the names then differ. */
  lemma EntryNamesDistinct(i: int, j: int)
    requires 0 <= i < 256 && 0 <= j < 256
    ensures EntryName(i) == EntryName(j) <==> i == j
  {
    assert Low8(i) == i && Low8(j) == j;
    if EntryName(i) == EntryName(j) {
      assert EntryName(i)[1] == EntryName(j)[1] && EntryName(i)[2] == EntryName(j)[2];
      HexDigitInjective(i / 16, j / 16);
      HexDigitInjective(i % 16, j % 16);
    }
  }

  /** The digits are the upper-case hexadecimal digits. */
  lemma EntryNameDigits(i: int)
    ensures forall k :: 1 <= k < 3 ==>
      (48 <= EntryName(i)[k] <= 57) || (65 <= EntryName(i)[k] <= 70)
  {
  }

  // ---------------------------------------------------------------------
  // Validation before loading

  /** The declared size of the tile payload. */
  function ExpectedDataSize(h: Header): int
  {
    h.width * h.height * Stride(h.storageMode)
  }

  /** What load_mzm_common checks before any mutation, with the payload
      size computed without overflow. */
  predicate Accepted(h: Header, fileLength: int)
  {
    0 <= h.savegameMode <= 1 &&
    (h.storageMode == 0 || h.storageMode == 1) &&
    fileLength - h.dataStart >= ExpectedDataSize(h) &&
    fileLength >= h.robotsLocation &&
    (h.robotsLocation == 0 || ExpectedDataSize(h) + h.dataStart <= h.robotsLocation)
  }

  /** An accepted header leaves room for its whole tile payload, and a
      declared robot table lies after the payload and inside the file. */
  lemma AcceptedPayloadFits(h: Header, fileLength: int)
    requires Accepted(h, fileLength) && h.width >= 0 && h.height >= 0 && h.dataStart >= 0
    ensures 0 <= h.dataStart + h.width * h.height * Stride(h.storageMode) <= fileLength
    ensures h.robotsLocation != 0 ==>
      h.dataStart + h.width * h.height * Stride(h.storageMode) <= h.robotsLocation <= fileLength
  {
    var n := h.width * h.height;
    assert n >= 0;
    assert n * Stride(h.storageMode) >= 0;
  }

  /** The same checks as the source computes them: `(width * height) *
      (storage_mode ? 2 : 6)` in 32-bit `int`. */
  function ExpectedDataSizeAsWritten(h: Header): int
  {
    Wrap32(Wrap32(h.width * h.height) * Stride(h.storageMode))
  }

  predicate AcceptedAsWritten(h: Header, fileLength: int)
  {
    0 <= h.savegameMode <= 1 &&
    (h.storageMode == 0 || h.storageMode == 1) &&
    fileLength - h.dataStart >= ExpectedDataSizeAsWritten(h) &&
    fileLength >= h.robotsLocation &&
    (h.robotsLocation == 0 || ExpectedDataSizeAsWritten(h) + h.dataStart <= h.robotsLocation)
  }

  /** Without overflow the two agree. */
  lemma AcceptedAsWrittenAgrees(h: Header, fileLength: int)
    requires 0 <= h.width && 0 <= h.height && h.width * h.height * 6 < 0x8000_0000
    ensures AcceptedAsWritten(h, fileLength) <==> Accepted(h, fileLength)
  {
    var n := h.width * h.height;
    assert 0 <= n <= n * 6;
    Wrap32InRange(n);
    Wrap32InRange(n * Stride(h.storageMode));
  }

  /** A 16-byte MZM2 header declaring a 32768 x 32768 board-storage
      region: the 32-bit payload size wraps to -2^31, so the header is
      accepted although not one payload byte follows it. */
  lemma OverflowAccepted()
    ensures var data := Magic2 + [0, 128, 0, 128, 0, 0, 0, 0, 0, 0, 0, 0];
      AllBytes(data) && ParseHeader(data).Some? &&
      var h := ParseHeader(data).value;
      h.width == 32768 && h.height == 32768 &&
      ExpectedDataSizeAsWritten(h) == -0x8000_0000 &&
      AcceptedAsWritten(h, |data|) && !Accepted(h, |data|) &&
      ExpectedDataSize(h) > |data| - h.dataStart
  {
    var data := Magic2 + [0, 128, 0, 128, 0, 0, 0, 0, 0, 0, 0, 0];
    assert data[..4] == Magic2;
    MagicsDistinct();
    var h := ParseHeader(data).value;
    assert h.width == 32768 && h.height == 32768 && h.storageMode == 0;
    assert h.width * h.height == 0x4000_0000;
    assert Wrap32(0x4000_0000) == 0x4000_0000;
    assert Wrap32(0x4000_0000 * 6) == -0x8000_0000;
  }

  // ---------------------------------------------------------------------
  // Clipping

  /** The clipped extent along one axis: a rectangle reaching or passing
      the destination's edge is cut at that edge. */
  function Effective(size: int, start: int, dest: int): (e: int)
  {
    if size + start >= dest then dest - start else size
  }

  /** With the origin inside the destination the clipped extent is the
      smaller of the declared one and the room left, so writes stay inside
      the destination. */
  lemma EffectiveWithin(size: int, start: int, dest: int)
    requires 0 <= start < dest && size >= 0
    ensures var e := Effective(size, start, dest);
      0 <= e <= size && start + e <= dest &&
      (e == size || e == dest - start) && (e < size ==> start + e == dest)
  {
  }
}
