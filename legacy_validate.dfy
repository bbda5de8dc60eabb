/** The read-only structural check a legacy (2.x) world or save file must
    pass before it is loaded (`__validate_legacy_world_file`), and the
    policy that decrypts a protected world once and checks it again
    (`validate_legacy_world_file`).

    The file is a byte sequence walked through a stdio cursor (CFiles).
    On a regular file fseek to any non-negative position succeeds, also
    past the end of the file; only a seek to a negative position fails. */
module LegacyValidate {
  import opened Bytes
  import opened CFiles
  import LegacyCipher

  /** `enum val_result`. */
  datatype ValResult = Success | Version | Invalid | Missing | Protected | Aborted

  const WorldGlobalOffsetOffset: int := 4230
  const WorldBlock1Size: int := 4129
  const WorldBlock2Size: int := 72
  const LegacyBoardNameSize: int := 25
  const LegacySfxSize: int := 69
  const NumSfx: int := 50
  /** Size of one board-table entry: its length and its offset. */
  const BoardTableEntrySize: int := 8
  const PaletteStart: int := WorldGlobalOffsetOffset - 48
  const V251: int := 0x0205
  const LegacyFormatVersion: int := 0x0254

  /** The version-tag readers `save_magic` and `world_magic`, which are not
      part of this model: each maps the magic bytes to a version, 0 when
      the magic is not recognised. */
  datatype Magics = Magics(save: seq<int> -> int, world: seq<int> -> int)

  /** A missing or non-regular file is `None`. */
  predicate Readable(file: Option<seq<int>>)
  {
    file.Some? ==> AllBytes(file.value)
  }

  /** A step of the walk: stopped with a verdict, or on at a position. */
  datatype Walk = Stop(result: ValResult) | At(pos: int)
  {
    predicate IsFailure() { Stop? }

    function PropagateFailure(): Walk
      requires IsFailure()
    {
      this
    }

    function Extract(): int
      requires !IsFailure()
    {
      pos
    }
  }

  /** Where the walk ends: rejected, or at the board table with the board
      count read last and the position right after it. */
  datatype Verdict = Reject(result: ValResult) | BoardTable(count: int, offset: int)

  // ---------------------------------------------------------------------
  // Savegame files

  /** TEST 2: the five-byte magic must name exactly the legacy format version. */
  function SaveVersionSpec(data: seq<int>, m: Magics): (w: Walk)
    requires AllBytes(data)
    ensures w.At? ==> w.pos == 5
    ensures w.Stop? ==> w.result == Invalid || w.result == Version
  {
    var (ok, p) := ReadAt(data, 0, 5);
    if !ok then Stop(Invalid)
    else
      var v := m.save(data[..5]);
      if v == 0 then Stop(Invalid)
      else if v > LegacyFormatVersion then Stop(Version)
      else if v < LegacyFormatVersion then Stop(Version)
      else At(p)
  }

  /** TEST 3 (savegame): skip the world blocks and the fread name. Every
      fixed skip moves forward; the name length read at EOF is -1. */
  function PreCountersSpec(data: seq<int>): (w: Walk)
    requires AllBytes(data)
    ensures w.At? ==> w.pos >= 8 + WorldBlock1Size + 71
    ensures w.Stop? ==> w.result == Invalid
  {
    var (len, p) := GetWAt(data, 8 + WorldBlock1Size + 71);
    match SeekAt(|data|, p, len, SeekCur)
    case None => Stop(Invalid)
    case Some(q) => if len < 0 then Stop(Invalid) else At(q + WorldBlock2Size + 24)
  }

  /** One counter record: a four-byte value and a length-prefixed name. */
  function CounterSpec(data: seq<int>, pos: int): (w: Walk)
    requires AllBytes(data) && pos >= 0
    ensures w.At? ==> w.pos >= pos
    ensures w.Stop? ==> w.result == Invalid
  {
    var (len, p) := GetDAt(data, pos + 4);
    match SeekAt(|data|, p, len, SeekCur)
    case None => Stop(Invalid)
    case Some(q) => if len < 0 then Stop(Invalid) else At(q)
  }

  /** The counters: `n` records. */
  function CountersSpec(data: seq<int>, pos: int, n: int): (w: Walk)
    requires AllBytes(data) && pos >= 0
    ensures w.At? ==> w.pos >= pos
    ensures w.Stop? ==> w.result == Invalid
    decreases n
  {
    if n <= 0 then At(pos)
    else
      var p :- CounterSpec(data, pos);
      CountersSpec(data, p, n - 1)
  }

  /** One string record: a name length, a value length, the name and the value. */
  function StringSpec(data: seq<int>, pos: int): (w: Walk)
    requires AllBytes(data) && pos >= 0
    ensures w.At? ==> w.pos >= pos
    ensures w.Stop? ==> w.result == Invalid
  {
    var (nameLength, p1) := GetDAt(data, pos);
    var (valueLength, p2) := GetDAt(data, p1);
    if nameLength < 0 || valueLength < 0 then Stop(Invalid)
    else At(p2 + nameLength + valueLength)
  }

  /** The strings: `n` records. */
  function StringsSpec(data: seq<int>, pos: int, n: int): (w: Walk)
    requires AllBytes(data) && pos >= 0
    ensures w.At? ==> w.pos >= pos
    ensures w.Stop? ==> w.result == Invalid
    decreases n
  {
    if n <= 0 then At(pos)
    else
      var p :- StringSpec(data, pos);
      StringsSpec(data, p, n - 1)
  }

  /** Sprites, misc and the fread/fwrite names and positions. A name
      length read at EOF (-1) moves the cursor back one byte. */
  function IoNamesSpec(data: seq<int>, pos: int): (p: int)
    requires AllBytes(data) && pos >= 0
    ensures p >= pos
  {
    var (readName, p1) := GetWAt(data, pos + 4612 + 12);
    var (writeName, p2) := GetWAt(data, p1 + readName + 4);
    p2 + writeName + 4
  }

  /** The screen mode, with the SMZX palette of modes 2 and 3. */
  function ScreenModeSpec(data: seq<int>, pos: int): (w: Walk)
    requires AllBytes(data) && pos >= 0
    ensures w.At? ==> w.pos >= pos
    ensures w.Stop? ==> w.result == Invalid
  {
    var (screenMode, p) := GetWAt(data, pos);
    if screenMode > 3 then Stop(Invalid)
    else if screenMode > 1 then At(p + 768)
    else At(p)
  }

  /** The commands and the vlayer: its size, dimensions, chars and colors. */
  function VlayerSpec(data: seq<int>, pos: int): (w: Walk)
    requires AllBytes(data) && pos >= 0
    ensures w.At? ==> w.pos >= pos
    ensures w.Stop? ==> w.result == Invalid
  {
    var (len, p) := GetDAt(data, pos + 4);
    if len < 0 then Stop(Invalid)
    else At(p + 4 + len + len)
  }

  /** Everything after the strings. */
  function SaveTailSpec(data: seq<int>, pos: int): (w: Walk)
    requires AllBytes(data) && pos >= 0
    ensures w.At? ==> w.pos >= pos
    ensures w.Stop? ==> w.result == Invalid
  {
    var p :- ScreenModeSpec(data, IoNamesSpec(data, pos));
    VlayerSpec(data, p)
  }

  /** The savegame branch, up to the global robot position. */
  function SaveSpec(data: seq<int>, m: Magics): (w: Walk)
    requires AllBytes(data)
    ensures w.At? ==> w.pos >= 8 + WorldBlock1Size + 71
    ensures w.Stop? ==> w.result == Invalid || w.result == Version
  {
    var _ :- SaveVersionSpec(data, m);
    var p1 :- PreCountersSpec(data);
    var (numCounters, p2) := GetDAt(data, p1);
    if numCounters < 0 then Stop(Invalid)
    else
      var p3 :- CountersSpec(data, p2, numCounters);
      var (numStrings, p4) := GetDAt(data, p3);
      if numStrings < 0 then Stop(Invalid)
      else
        var p5 :- StringsSpec(data, p4, numStrings);
        SaveTailSpec(data, p5)
  }

  // ---------------------------------------------------------------------
  // World files

  /** TEST 6: the 48 palette bytes before the global robot position are
      all present and at most 63. */
  predicate PaletteOk(data: seq<int>)
  {
    forall k :: PaletteStart <= k < WorldGlobalOffsetOffset ==> k < |data| && data[k] <= 63
  }

  /** The world branch: the protection byte, the magic and its version,
      and the palette. */
  function WorldHeaderSpec(data: seq<int>, m: Magics): (w: Walk)
    requires AllBytes(data)
    ensures w.At? ==> w.pos == WorldGlobalOffsetOffset
  {
    var (protection, p) := GetCAt(data, LegacyBoardNameSize);
    if protection > 0 then
      if protection > 3 then Stop(Invalid) else Stop(Protected)
    else
      var (ok, _) := ReadAt(data, p, 3);
      if !ok then Stop(Invalid)
      else
        var v := m.world(data[p..p + 3]);
        if v == 0 then Stop(Invalid)
        else if v < V251 then Stop(Version)
        else if v > LegacyFormatVersion then Stop(Version)
        else if !PaletteOk(data) then Stop(Invalid)
        else At(WorldGlobalOffsetOffset)
  }

  // ---------------------------------------------------------------------
  // TEST 7: sound effects and the board count

  datatype SfxOutcome = TooLong | Walked(count: int, pos: int)

  /** The SFX table walk from entry `i`: a length byte above the limit
      rejects; a seek that fails ends the walk early. */
  function SfxWalk(data: seq<int>, pos: int, i: int): (r: SfxOutcome)
    requires AllBytes(data) && pos >= 0 && 0 <= i <= NumSfx
    ensures r.Walked? ==> i <= r.count <= NumSfx && r.pos >= pos - (NumSfx - i)
    decreases NumSfx - i
  {
    if i == NumSfx then Walked(i, pos)
    else
      var (len, p1) := GetCAt(data, pos);
      if len > LegacySfxSize then TooLong
      else match SeekAt(|data|, p1, len, SeekCur)
        case None => Walked(i, p1)
        case Some(p2) => SfxWalk(data, p2, i + 1)
  }

  /** From the global robot position: skip it, read the board count, and
      when it is zero walk the SFX table and read the count again. */
  function BoardCountSpec(data: seq<int>, pos: int): (v: Verdict)
    requires AllBytes(data) && pos >= 0
    ensures v.BoardTable? ==> v.offset >= pos + 4 - NumSfx && -1 <= v.count < 256
    ensures v.Reject? ==> v.result == Invalid
  {
    var (n, p1) := GetCAt(data, pos + 4);
    if n != 0 then BoardTable(n, p1)
    else
      var (size, p2) := GetWAt(data, p1);
      match SfxWalk(data, p2, 0)
      case TooLong => Reject(Invalid)
      case Walked(i, p3) =>
        if i != NumSfx || p3 - p2 != size then Reject(Invalid)
        else
          var (n2, p4) := GetCAt(data, p3);
          BoardTable(n2, p4)
  }

  /** Everything before the board-table check. */
  function ValidateWalk(data: seq<int>, savegame: bool, m: Magics): Verdict
    requires AllBytes(data)
  {
    var w := if savegame then SaveSpec(data, m) else WorldHeaderSpec(data, m);
    match w
    case Stop(r) => Reject(r)
    case At(p) => BoardCountSpec(data, p)
  }

  /** The board-table check as written: a zero count is rejected, then the
      names and the length/offset pairs are skipped and the distance
      compared with the count. */
  function TableSpan(size: int, n: int, offset: int): ValResult
  {
    if n == 0 then Invalid
    else match SeekAt(size, offset, n * LegacyBoardNameSize, SeekCur)
      case None => Invalid
      case Some(p) =>
        match SeekAt(size, p, n * BoardTableEntrySize, SeekCur)
        case None => Invalid
        case Some(q) =>
          if q - offset != n * (LegacyBoardNameSize + BoardTableEntrySize) then Invalid else Success
  }

  /** The board-table check as intended: at least one board, and the names
      and length/offset pairs all inside the file. */
  function TableInFile(size: int, n: int, offset: int): ValResult
  {
    if n <= 0 || offset + n * (LegacyBoardNameSize + BoardTableEntrySize) > size then Invalid
    else Success
  }

  /** __validate_legacy_world_file as written. */
  function Validate(file: Option<seq<int>>, savegame: bool, m: Magics): ValResult
    requires Readable(file)
  {
    match file
    case None => Missing
    case Some(data) =>
      match ValidateWalk(data, savegame, m)
      case Reject(r) => r
      case BoardTable(n, offset) => TableSpan(|data|, n, offset)
  }

  /** __validate_legacy_world_file with the board-table check it intends. */
  function ValidateChecked(file: Option<seq<int>>, savegame: bool, m: Magics): ValResult
    requires Readable(file)
  {
    match file
    case None => Missing
    case Some(data) =>
      match ValidateWalk(data, savegame, m)
      case Reject(r) => r
      case BoardTable(n, offset) => TableInFile(|data|, n, offset)
  }

  // ---------------------------------------------------------------------
  // The walk over a FILE

  /** TEST 2 and TEST 3 of the savegame branch. */
  method CheckSaveHeader(f: CFile, m: Magics) returns (w: Walk)
    requires f.Valid() && f.pos == 0
    modifies f
    ensures f.Valid()
    ensures w == (var v := SaveVersionSpec(f.data, m); if v.Stop? then v else PreCountersSpec(f.data))
    ensures w.At? ==> f.pos == w.pos
  {
    var ok, magic := f.Read(5);
    if !ok {
      return Stop(Invalid);
    }
    var v := m.save(magic);
    if v == 0 {
      return Stop(Invalid);
    } else if v > LegacyFormatVersion {
      return Stop(Version);
    } else if v < LegacyFormatVersion {
      return Stop(Version);
    }
    // Forward seeks from a valid position cannot fail.
    var ignored := f.Seek(8, SeekSet);
    ignored := f.Seek(WorldBlock1Size, SeekCur);
    ignored := f.Seek(71, SeekCur);
    var len := f.GetW();
    var failed := f.Seek(len, SeekCur);
    if failed || len < 0 {
      return Stop(Invalid);
    }
    ignored := f.Seek(WorldBlock2Size, SeekCur);
    ignored := f.Seek(24, SeekCur);
    return At(f.pos);
  }

  method SkipCounter(f: CFile) returns (w: Walk)
    requires f.Valid()
    modifies f
    ensures f.Valid()
    ensures w == CounterSpec(f.data, old(f.pos))
    ensures w.At? ==> f.pos == w.pos
  {
    var ignored := f.Seek(4, SeekCur);
    var len := f.GetD();
    var failed := f.Seek(len, SeekCur);
    if failed || len < 0 {
      return Stop(Invalid);
    }
    return At(f.pos);
  }

  /** The counter records. */
  method SkipCounters(f: CFile, numCounters: int) returns (w: Walk)
    requires f.Valid()
    modifies f
    ensures f.Valid()
    ensures w == CountersSpec(f.data, old(f.pos), numCounters)
    ensures w.At? ==> f.pos == w.pos
  {
    var i := 0;
    while i < numCounters
      invariant f.Valid()
      invariant CountersSpec(f.data, old(f.pos), numCounters) == CountersSpec(f.data, f.pos, numCounters - i)
    {
      var _ :- SkipCounter(f);
      i := i + 1;
    }
    return At(f.pos);
  }

  method SkipString(f: CFile) returns (w: Walk)
    requires f.Valid()
    modifies f
    ensures f.Valid()
    ensures w == StringSpec(f.data, old(f.pos))
    ensures w.At? ==> f.pos == w.pos
  {
    var nameLength := f.GetD();
    var valueLength := f.GetD();
    if nameLength < 0 || valueLength < 0 {
      return Stop(Invalid);
    }
    var ignored := f.Seek(nameLength, SeekCur);
    ignored := f.Seek(valueLength, SeekCur);
    return At(f.pos);
  }

  /** The string records. */
  method SkipStrings(f: CFile, numStrings: int) returns (w: Walk)
    requires f.Valid()
    modifies f
    ensures f.Valid()
    ensures w == StringsSpec(f.data, old(f.pos), numStrings)
    ensures w.At? ==> f.pos == w.pos
  {
    var i := 0;
    while i < numStrings
      invariant f.Valid()
      invariant StringsSpec(f.data, old(f.pos), numStrings) == StringsSpec(f.data, f.pos, numStrings - i)
    {
      var _ :- SkipString(f);
      i := i + 1;
    }
    return At(f.pos);
  }

  /** Sprites through the fwrite position. */
  method SkipIoNames(f: CFile)
    requires f.Valid()
    modifies f
    ensures f.Valid()
    ensures f.pos == IoNamesSpec(f.data, old(f.pos))
  {
    var ignored := f.Seek(4612, SeekCur);
    ignored := f.Seek(12, SeekCur);
    var readName := f.GetW();
    ignored := f.Seek(readName, SeekCur);
    ignored := f.Seek(4, SeekCur);
    var writeName := f.GetW();
    ignored := f.Seek(writeName, SeekCur);
    ignored := f.Seek(4, SeekCur);
  }

  method CheckScreenMode(f: CFile) returns (w: Walk)
    requires f.Valid()
    modifies f
    ensures f.Valid()
    ensures w == ScreenModeSpec(f.data, old(f.pos))
    ensures w.At? ==> f.pos == w.pos
  {
    var screenMode := f.GetW();
    if screenMode > 3 {
      return Stop(Invalid);
    }
    if screenMode > 1 {
      var ignored := f.Seek(768, SeekCur);
    }
    return At(f.pos);
  }

  method SkipVlayer(f: CFile) returns (w: Walk)
    requires f.Valid()
    modifies f
    ensures f.Valid()
    ensures w == VlayerSpec(f.data, old(f.pos))
    ensures w.At? ==> f.pos == w.pos
  {
    var ignored := f.Seek(4, SeekCur);
    var len := f.GetD();
    if len < 0 {
      return Stop(Invalid);
    }
    ignored := f.Seek(4, SeekCur);
    ignored := f.Seek(len, SeekCur);
    ignored := f.Seek(len, SeekCur);
    return At(f.pos);
  }

  /** The savegame branch. */
  method CheckSaveFile(f: CFile, m: Magics) returns (w: Walk)
    requires f.Valid() && f.pos == 0
    modifies f
    ensures f.Valid()
    ensures w == SaveSpec(f.data, m)
    ensures w.At? ==> f.pos == w.pos
  {
    var p :- CheckSaveHeader(f, m);
    var numCounters := f.GetD();
    if numCounters < 0 {
      return Stop(Invalid);
    }
    p :- SkipCounters(f, numCounters);
    var numStrings := f.GetD();
    if numStrings < 0 {
      return Stop(Invalid);
    }
    p :- SkipStrings(f, numStrings);
    SkipIoNames(f);
    p :- CheckScreenMode(f);
    w := SkipVlayer(f);
  }

  /** TEST 6: the palette loop. */
  method CheckPalette(f: CFile) returns (ok: bool)
    requires f.Valid() && f.pos == PaletteStart
    modifies f
    ensures f.Valid()
    ensures ok == PaletteOk(f.data)
    ensures ok ==> f.pos == WorldGlobalOffsetOffset
  {
    for i := 0 to 48
      invariant f.Valid() && f.pos == PaletteStart + i
      invariant forall k :: PaletteStart <= k < PaletteStart + i ==> k < |f.data| && f.data[k] <= 63
    {
      var val := f.GetC();
      if val < 0 || val > 63 {
        assert !(PaletteStart + i < |f.data| && f.data[PaletteStart + i] <= 63);
        return false;
      }
    }
    return true;
  }

  /** TEST 3 to TEST 6 of the world branch. */
  method CheckWorldHeader(f: CFile, m: Magics) returns (w: Walk)
    requires f.Valid() && f.pos == 0
    modifies f
    ensures f.Valid()
    ensures w == WorldHeaderSpec(f.data, m)
    ensures w.At? ==> f.pos == w.pos
  {
    // A seek to a non-negative position does not fail, so the
    // truncation test passes on every file.
    var ignored := f.Seek(WorldGlobalOffsetOffset, SeekSet);
    ignored := f.Seek(LegacyBoardNameSize, SeekSet);
    var protection := f.GetC();
    if protection > 0 {
      if protection > 3 {
        return Stop(Invalid);
      }
      return Stop(Protected);
    }
    var ok, magic := f.Read(3);
    if !ok {
      return Stop(Invalid);
    }
    var v := m.world(magic);
    if v == 0 {
      return Stop(Invalid);
    } else if v < V251 {
      return Stop(Version);
    } else if v > LegacyFormatVersion {
      return Stop(Version);
    }
    ignored := f.Seek(PaletteStart, SeekSet);
    ok := CheckPalette(f);
    if !ok {
      return Stop(Invalid);
    }
    return At(f.pos);
  }

  /** TEST 7 up to the board count. */
  method CheckBoardCount(f: CFile) returns (v: Verdict)
    requires f.Valid()
    modifies f
    ensures f.Valid()
    ensures v == BoardCountSpec(f.data, old(f.pos))
    ensures v.BoardTable? ==> f.pos == v.offset
  {
    var ignored := f.Seek(4, SeekCur);
    var n := f.GetC();
    if n == 0 {
      var size := f.GetW();
      var sfxOff := f.pos;
      var i := 0;
      while i < NumSfx
        invariant f.Valid() && 0 <= i <= NumSfx
        invariant SfxWalk(f.data, sfxOff, 0) == SfxWalk(f.data, f.pos, i)
      {
        var len := f.GetC();
        if len > LegacySfxSize {
          return Reject(Invalid);
        }
        var failed := f.Seek(len, SeekCur);
        if failed {
          break;
        }
        i := i + 1;
      }
      assert SfxWalk(f.data, sfxOff, 0) == Walked(i, f.pos);
      if i != NumSfx || f.pos - sfxOff != size {
        return Reject(Invalid);
      }
      n := f.GetC();
    }
    return BoardTable(n, f.pos);
  }

  /** Both branches, up to the board table. */
  method WalkToBoards(f: CFile, savegame: bool, m: Magics) returns (v: Verdict)
    requires f.Valid() && f.pos == 0
    modifies f
    ensures f.Valid()
    ensures v == ValidateWalk(f.data, savegame, m)
    ensures v.BoardTable? ==> f.pos == v.offset
  {
    var w: Walk;
    if savegame {
      w := CheckSaveFile(f, m);
    } else {
      w := CheckWorldHeader(f, m);
    }
    if w.Stop? {
      return Reject(w.result);
    }
    v := CheckBoardCount(f);
  }

  /** __validate_legacy_world_file. */
  method ValidateLegacyWorldFile(file: Option<seq<int>>, savegame: bool, m: Magics) returns (result: ValResult)
    requires Readable(file)
    ensures result == Validate(file, savegame, m)
  {
    if file.None? {
      return Missing;
    }
    var f := new CFile.Open(file.value);
    var v := WalkToBoards(f, savegame, m);
    if v.Reject? {
      return v.result;
    }
    var n := v.count;
    if n == 0 {
      return Invalid;
    }
    var boardNameOffset := f.pos;
    var failed := f.Seek(n * LegacyBoardNameSize, SeekCur);
    if failed {
      return Invalid;
    }
    failed := f.Seek(n * BoardTableEntrySize, SeekCur);
    if failed || f.pos - boardNameOffset != n * (LegacyBoardNameSize + BoardTableEntrySize) {
      return Invalid;
    }
    return Success;
  }

  /** __validate_legacy_world_file with the intended board-table check. */
  method ValidateLegacyWorldFileChecked(file: Option<seq<int>>, savegame: bool, m: Magics) returns (result: ValResult)
    requires Readable(file)
    ensures result == ValidateChecked(file, savegame, m)
  {
    if file.None? {
      return Missing;
    }
    var f := new CFile.Open(file.value);
    var v := WalkToBoards(f, savegame, m);
    if v.Reject? {
      return v.result;
    }
    var n := v.count;
    if n <= 0 || f.pos + n * (LegacyBoardNameSize + BoardTableEntrySize) > |f.data| {
      return Invalid;
    }
    return Success;
  }

  // ---------------------------------------------------------------------
  // Properties of the check

  /** Only a world file whose protection byte is 1..3 is reported as
      protected, and every such file is. */
  lemma ProtectedExactly(data: seq<int>, savegame: bool, m: Magics)
    requires AllBytes(data)
    ensures Validate(Some(data), savegame, m) == Protected <==>
      !savegame && |data| > LegacyBoardNameSize && 1 <= data[LegacyBoardNameSize] <= 3
    ensures ValidateChecked(Some(data), savegame, m) == Protected <==>
      !savegame && |data| > LegacyBoardNameSize && 1 <= data[LegacyBoardNameSize] <= 3
  {
    var w := if savegame then SaveSpec(data, m) else WorldHeaderSpec(data, m);
    if w.At? {
      var v := BoardCountSpec(data, w.pos);
      assert v.Reject? ==> v.result == Invalid;
    }
  }

  /** A world file with a readable, unprotected header and a recognised
      magic is a version mismatch exactly when its version lies outside
      2.51 ..  the legacy format version. */
  lemma WorldVersionGate(data: seq<int>, m: Magics)
    requires AllBytes(data) && |data| >= 29 && data[LegacyBoardNameSize] == 0
    requires m.world(data[26..29]) != 0
    ensures var v := m.world(data[26..29]);
      Validate(Some(data), false, m) == Version <==> v < V251 || v > LegacyFormatVersion
  {
    var w := WorldHeaderSpec(data, m);
    if w.At? {
      var v := BoardCountSpec(data, w.pos);
      assert v.Reject? ==> v.result == Invalid;
    }
  }

  /** A savegame with a recognised magic is a version mismatch exactly when
      it is not of the legacy format version itself. */
  lemma SaveVersionGate(data: seq<int>, m: Magics)
    requires AllBytes(data) && |data| >= 5 && m.save(data[..5]) != 0
    ensures Validate(Some(data), true, m) == Version <==> m.save(data[..5]) != LegacyFormatVersion
  {
    var w := SaveSpec(data, m);
    if w.At? {
      var v := BoardCountSpec(data, w.pos);
      assert v.Reject? ==> v.result == Invalid;
    }
    if m.save(data[..5]) == LegacyFormatVersion {
      assert SaveVersionSpec(data, m).At?;
    }
  }

  /** Every walk that reaches the board table is at least a name table's
      width into the file. */
  lemma WalkOffsetBound(data: seq<int>, savegame: bool, m: Magics)
    requires AllBytes(data)
    ensures var v := ValidateWalk(data, savegame, m);
      v.BoardTable? ==> v.offset >= LegacyBoardNameSize + BoardTableEntrySize
  {
  }

  /** As written, the board-table check only rejects a zero count: on a
      regular file the skips always land and the distance always matches,
      also for a count of EOF (-1), where both skips move backwards. */
  lemma TableSpanOnlyRejectsZero(size: int, n: int, offset: int)
    requires -1 <= n < 256 && offset >= LegacyBoardNameSize + BoardTableEntrySize
    ensures TableSpan(size, n, offset) == if n == 0 then Invalid else Success
  {
  }

  /** So a file validates exactly when the walk reaches a non-zero board
      count, whether or not any board data follows. */
  lemma AsWrittenIgnoresTable(data: seq<int>, savegame: bool, m: Magics)
    requires AllBytes(data)
    ensures var v := ValidateWalk(data, savegame, m);
      Validate(Some(data), savegame, m) == Success <==> v.BoardTable? && v.count != 0
  {
    var v := ValidateWalk(data, savegame, m);
    WalkOffsetBound(data, savegame, m);
    if v.BoardTable? {
      TableSpanOnlyRejectsZero(|data|, v.count, v.offset);
    }
  }

  /** A world file cut off right after its palette: title, protection 0,
      the magic of 2.11 and zeros, 4230 bytes in all. */
  function TruncatedWorld(): (data: seq<int>)
    ensures |data| == WorldGlobalOffsetOffset && AllBytes(data)
  {
    seq(WorldGlobalOffsetOffset, k =>
      if k == 26 then 'M' as int else if k == 27 then 2 else if k == 28 then 0x11 else 0)
  }

  /** The truncated world passes the check as written (its board count is
      the EOF of the read past the end), and the intended check rejects it. */
  lemma TruncatedWorldValidates(m: Magics)
    requires V251 <= m.world(['M' as int, 2, 0x11]) <= LegacyFormatVersion
    ensures Validate(Some(TruncatedWorld()), false, m) == Success
    ensures ValidateChecked(Some(TruncatedWorld()), false, m) == Invalid
  {
    var data := TruncatedWorld();
    assert data[26..29] == ['M' as int, 2, 0x11];
    assert PaletteOk(data);
    assert WorldHeaderSpec(data, m) == At(WorldGlobalOffsetOffset);
    assert BoardCountSpec(data, WorldGlobalOffsetOffset) == BoardTable(EOF, WorldGlobalOffsetOffset + 4);
  }

  /** The intended check only turns some successes into Invalid. */
  lemma CheckedOnlyRejectsMore(file: Option<seq<int>>, savegame: bool, m: Magics)
    requires Readable(file)
    ensures ValidateChecked(file, savegame, m) != Validate(file, savegame, m) ==>
      Validate(file, savegame, m) == Success && ValidateChecked(file, savegame, m) == Invalid
  {
    if file.Some? {
      var v := ValidateWalk(file.value, savegame, m);
      WalkOffsetBound(file.value, savegame, m);
      if v.BoardTable? {
        TableSpanOnlyRejectsZero(|file.value|, v.count, v.offset);
      }
    }
  }

  /** What the intended check guarantees of a world file it accepts: an
      unprotected header of a supported version, a palette of 6-bit
      components, and at least one board whose names and length/offset
      pairs lie inside the file. */
  lemma CheckedWorldSuccess(data: seq<int>, m: Magics)
    requires AllBytes(data) && ValidateChecked(Some(data), false, m) == Success
    ensures |data| >= WorldGlobalOffsetOffset && data[LegacyBoardNameSize] == 0
    ensures V251 <= m.world(data[26..29]) <= LegacyFormatVersion
    ensures PaletteOk(data)
    ensures var v := ValidateWalk(data, false, m);
      v.BoardTable? && v.count >= 1 &&
      v.offset + v.count * (LegacyBoardNameSize + BoardTableEntrySize) <= |data|
  {
    assert WorldHeaderSpec(data, m).At?;
    assert PaletteStart < |data|;
  }

  // ---------------------------------------------------------------------
  // The SFX table against an independent layout

  /** The lengths of `n` SFX records laid out one after another from `pos`,
      each a length byte followed by that many bytes, all inside the file. */
  function SfxRecords(data: seq<int>, pos: int, n: nat): (r: Option<seq<int>>)
    requires AllBytes(data) && pos >= 0
    ensures r.Some? ==> |r.value| == n && Sum(r.value) >= 0
    ensures r.Some? && n > 0 ==> pos + n + Sum(r.value) <= |data|
    decreases n
  {
    if n == 0 then Some([])
    else if pos >= |data| then None
    else
      var len := data[pos];
      if pos + 1 + len > |data| then None
      else match SfxRecords(data, pos + 1 + len, n - 1)
        case None => None
        case Some(rest) =>
          assert ([len] + rest)[1..] == rest;
          Some([len] + rest)
  }

  function Sum(s: seq<int>): int
  {
    if |s| == 0 then 0 else s[0] + Sum(s[1..])
  }

  predicate SomeTooLong(lens: seq<int>)
  {
    exists j :: 0 <= j < |lens| && lens[j] > LegacySfxSize
  }

  lemma SomeTooLongCons(len: int, rest: seq<int>)
    requires len <= LegacySfxSize
    ensures SomeTooLong([len] + rest) <==> SomeTooLong(rest)
  {
    var lens := [len] + rest;
    if SomeTooLong(lens) {
      var j :| 0 <= j < |lens| && lens[j] > LegacySfxSize;
      assert rest[j - 1] > LegacySfxSize;
    }
    if SomeTooLong(rest) {
      var j :| 0 <= j < |rest| && rest[j] > LegacySfxSize;
      assert lens[j + 1] > LegacySfxSize;
    }
  }

  /** On a table whose records all lie in the file the walk rejects an
      over-long effect, and otherwise ends after the last record. */
  lemma {:induction false} SfxWalkOnRecords(data: seq<int>, pos: int, i: int, lens: seq<int>)
    requires AllBytes(data) && pos >= 0 && 0 <= i <= NumSfx
    requires SfxRecords(data, pos, NumSfx - i) == Some(lens)
    ensures SfxWalk(data, pos, i) ==
      if SomeTooLong(lens) then TooLong else Walked(NumSfx, pos + |lens| + Sum(lens))
    decreases NumSfx - i
  {
    if i < NumSfx {
      var len := data[pos];
      var next := pos + 1 + len;
      var rest := SfxRecords(data, next, NumSfx - i - 1).value;
      assert lens == [len] + rest;
      assert GetCAt(data, pos) == (len, pos + 1);
      if len > LegacySfxSize {
        assert lens[0] > LegacySfxSize;
      } else {
        assert SeekAt(|data|, pos + 1, len, SeekCur) == Some(next);
        assert SfxWalk(data, pos, i) == SfxWalk(data, next, i + 1);
        SfxWalkOnRecords(data, next, i + 1, rest);
        SomeTooLongCons(len, rest);
        assert lens[1..] == rest;
        assert Sum(lens) == len + Sum(rest);
      }
    }
  }

  /** A zero first board count followed by a walk that reaches the end. */
  lemma {:induction false} BoardCountAfterWalk(data: seq<int>, pos: int, size: int)
    requires AllBytes(data) && pos >= 0 && pos + 7 <= |data| && data[pos + 4] == 0
    requires SfxWalk(data, pos + 7, 0) == Walked(NumSfx, pos + 7 + size)
    ensures BoardCountSpec(data, pos) ==
      if size != LeWord(data, pos + 5) then Reject(Invalid)
      else BoardTable(GetCAt(data, pos + 7 + size).0, GetCAt(data, pos + 7 + size).1)
  {
    BoardCountZero(data, pos);
  }

  /** A zero first board count: the SFX table's size word, the walk, and
      the real count after it. */
  lemma {:induction false} BoardCountZero(data: seq<int>, pos: int)
    requires AllBytes(data) && pos >= 0 && pos + 7 <= |data| && data[pos + 4] == 0
    ensures BoardCountSpec(data, pos) ==
      match SfxWalk(data, pos + 7, 0)
      case TooLong => Reject(Invalid)
      case Walked(i, p3) =>
        if i != NumSfx || p3 - (pos + 7) != LeWord(data, pos + 5) then Reject(Invalid)
        else BoardTable(GetCAt(data, p3).0, GetCAt(data, p3).1)
  {
    assert GetCAt(data, pos + 4) == (0, pos + 5);
    assert GetWAt(data, pos + 5) == (LeWord(data, pos + 5), pos + 7);
  }

  // ---------------------------------------------------------------------
  // validate_legacy_world_file: decrypt once and check again

  /** Whether a protected world is decrypted: when configured to, when
      there is no video to ask on, or when the user agrees (`confirm`
      returns 0). */
  function DecryptWanted(autoDecrypt: bool, videoReady: bool, confirmDeclined: bool): bool
  {
    autoDecrypt || !videoReady || !confirmDeclined
  }

  /** The result and the file afterwards. Decryption rewrites the file
      (unless its backup or reopening failed); a file that is still
      protected afterwards, or that the user would not decrypt, aborts. */
  function RetrySpec(file: Option<seq<int>>, savegame: bool, m: Magics, wanted: bool,
                     backupOk: bool, writable: bool): (ValResult, Option<seq<int>>)
    requires Readable(file)
  {
    var first := ValidateChecked(file, savegame, m);
    if first != Protected then (first, file)
    else if !wanted then (Aborted, file)
    else
      var after := Some(LegacyCipher.DecryptedFile(file.value, backupOk, writable));
      var second := ValidateChecked(after, savegame, m);
      (if second != Protected then second else Aborted, after)
  }

  /** validate_legacy_world_file. */
  method ValidateWithRetry(file: Option<seq<int>>, savegame: bool, m: Magics,
                           autoDecrypt: bool, videoReady: bool, confirmDeclined: bool,
                           backupOk: bool, writable: bool)
    returns (result: ValResult, newFile: Option<seq<int>>)
    requires Readable(file)
    ensures (result, newFile) ==
      RetrySpec(file, savegame, m, DecryptWanted(autoDecrypt, videoReady, confirmDeclined), backupOk, writable)
  {
    newFile := file;
    result := ValidateLegacyWorldFileChecked(file, savegame, m);
    if result == Protected {
      if autoDecrypt || !videoReady || !confirmDeclined {
        var decrypted := LegacyCipher.Decrypt(file.value, backupOk, writable);
        newFile := Some(decrypted);
        result := ValidateLegacyWorldFileChecked(newFile, savegame, m);
        if result != Protected {
          return;
        }
      }
      result := Aborted;
    }
  }

  /** The policy never reports a file as protected. */
  lemma RetryNeverProtected(file: Option<seq<int>>, savegame: bool, m: Magics, wanted: bool,
                            backupOk: bool, writable: bool)
    requires Readable(file)
    ensures RetrySpec(file, savegame, m, wanted, backupOk, writable).0 != Protected
  {
  }

  /** A result other than Protected passes through, and the file is untouched. */
  lemma RetryPassesThrough(file: Option<seq<int>>, savegame: bool, m: Magics, wanted: bool,
                           backupOk: bool, writable: bool)
    requires Readable(file) && ValidateChecked(file, savegame, m) != Protected
    ensures RetrySpec(file, savegame, m, wanted, backupOk, writable) == (ValidateChecked(file, savegame, m), file)
  {
  }

  /** A protected world that is decrypted is checked once more and never
      aborts: the decrypted file has protection byte 0. */
  lemma RetryUnlocksDecryptedWorld(file: Option<seq<int>>, savegame: bool, m: Magics)
    requires Readable(file) && ValidateChecked(file, savegame, m) == Protected
    ensures file.Some? && !savegame
    ensures var after := LegacyCipher.DecryptedFile(file.value, true, true);
      RetrySpec(file, savegame, m, true, true, true) == (ValidateChecked(Some(after), false, m), Some(after)) &&
      ValidateChecked(Some(after), false, m) != Protected
  {
    var data := file.value;
    ProtectedExactly(data, savegame, m);
    var after := LegacyCipher.DecryptedFile(data, true, true);
    if |data| >= 44 {
      LegacyCipher.DecryptedFileIsUnprotected(data);
    }
    ProtectedExactly(after, false, m);
  }

  /** Without decryption (declined, or no backup or no write access) a
      protected world aborts and keeps its contents. */
  lemma RetryWithoutDecryptionAborts(file: Option<seq<int>>, savegame: bool, m: Magics, wanted: bool,
                                     backupOk: bool, writable: bool)
    requires Readable(file) && ValidateChecked(file, savegame, m) == Protected
    requires !wanted || !backupOk || !writable
    ensures RetrySpec(file, savegame, m, wanted, backupOk, writable) == (Aborted, file)
  {
  }
}
