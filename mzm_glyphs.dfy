/** The overlay and vlayer targets of load_mzm_common (src/mzm.c): each
    record of the clipped rectangle gives its destination cell a char and
    a color, whatever the cell held; nothing else on the board or in the
    world changes. */
module MzmGlyphs {
  import opened MzmFormat
  import opened MzmBoard
  import opened MzmRect
  import opened MzmTiles
  import opened MemFiles

  /** The char and color a record at `p` gives an overlay or vlayer cell:
      the param and color of a board-storage record (its id and under
      triple are skipped), the two bytes of a layer-storage record. */
  function RecordGlyph(data: seq<int>, p: int, storage: StorageMode): Glyph
  {
    if storage == BoardStorage then Glyph(ByteAt(data, p + 1), ByteAt(data, p + 2))
    else Glyph(ByteAt(data, p), ByteAt(data, p + 1))
  }

  /** RecordGlyph as the cell transform of a rectangle write. */
  function Written(data: seq<int>, storage: StorageMode): (Glyph, int) -> Glyph
  {
    (g: Glyph, q: int) => RecordGlyph(data, q, storage)
  }

  /** After loading, a cell of the clipped rectangle at (cx, cy) holds the
      char and color of the record `cy - startY` file rows and
      `cx - startX` records after the first, and every other cell is as it
      was. */
  lemma LoadedGlyph(glyphs: seq<Glyph>, data: seq<int>, storage: StorageMode, p: int, width: int,
                    destWidth: int, destHeight: int, startX: int, startY: int, effW: nat, effH: nat,
                    cx: int, cy: int)
    requires |glyphs| == destWidth * destHeight && effW <= width
    requires 0 <= startX && startX + effW <= destWidth && 0 <= startY && startY + effH <= destHeight
    requires 0 <= cx < destWidth && 0 <= cy < destHeight
    ensures RowsFit(|glyphs|, destWidth, startX + startY * destWidth, effW, effH)
    ensures 0 <= cx + cy * destWidth < |glyphs|
    ensures RectWrite(glyphs, Written(data, storage), p, RecordSize(storage), RecordSize(storage) * width,
                      startX + startY * destWidth, destWidth, effW, effH)[cx + cy * destWidth] ==
      if startX <= cx < startX + effW && startY <= cy < startY + effH then
        RecordGlyph(data, p + (cy - startY) * (RecordSize(storage) * width) + RecordSize(storage) * (cx - startX),
                    storage)
      else glyphs[cx + cy * destWidth]
  {
    var o := startX + startY * destWidth;
    var size := RecordSize(storage);
    RectRowsFit(destWidth, destHeight, startX, startY, effW, effH);
    RectIndex(destWidth, destHeight, cx, cy);
    assert cy * destWidth + cx == cx + cy * destWidth;
    InRowsRect(destWidth, startX, startY, effW, effH, cx, cy);
    if startX <= cx < startX + effW && startY <= cy < startY + effH {
      RectWriteAt(glyphs, Written(data, storage), p, size, size * width, o, destWidth, effW, effH,
                  cx - startX, cy - startY);
      MulSub(cy, startY, destWidth);
    } else {
      RectWriteOutside(glyphs, Written(data, storage), p, size, size * width, o, destWidth, effW, effH,
                       cx + cy * destWidth);
    }
  }

  /** One record onto cell `o`: board storage skips the id, takes the
      param as the char and the color, and skips the under triple; layer
      storage takes its char and color as they are. */
  method LoadGlyph(glyphs: array<Glyph>, mf: MemFile, storage: StorageMode, o: int)
    requires mf.Valid() && 0 <= o < glyphs.Length && mf.pos + RecordSize(storage) <= |mf.data|
    modifies glyphs, mf
    ensures mf.Valid() && mf.pos == old(mf.pos) + RecordSize(storage)
    ensures glyphs[..] == old(glyphs[..])[o := RecordGlyph(mf.data, old(mf.pos), storage)]
  {
    if storage == BoardStorage {
      mf.Skip(1);
      var ch := mf.GetC();
      var color := mf.GetC();
      glyphs[o] := Glyph(ch, color);
      mf.Skip(3);
    } else {
      var ch := mf.GetC();
      var color := mf.GetC();
      glyphs[o] := Glyph(ch, color);
    }
  }

  /** The `n` visible records of a row onto the cells from `o` on. */
  method LoadGlyphRow(glyphs: array<Glyph>, mf: MemFile, storage: StorageMode, o: int, n: nat)
    requires mf.Valid() && 0 <= o && o + n <= glyphs.Length
    requires After(storage, mf.pos, n) <= |mf.data|
    modifies glyphs, mf
    ensures mf.Valid() && mf.pos == After(storage, old(mf.pos), n)
    ensures glyphs[..] == RowWrite(old(glyphs[..]), Written(mf.data, storage), old(mf.pos), RecordSize(storage), o, n)
  {
    ghost var whole := RowWrite(glyphs[..], Written(mf.data, storage), mf.pos, RecordSize(storage), o, n);
    var offset := o;
    var left: nat := n;
    while left > 0
      invariant 0 <= offset && offset + left <= glyphs.Length && mf.Valid()
      invariant After(storage, mf.pos, left) == After(storage, old(mf.pos), n)
      invariant RowWrite(glyphs[..], Written(mf.data, storage), mf.pos, RecordSize(storage), offset, left) == whole
    {
      LoadGlyph(glyphs, mf, storage, offset);
      offset, left := offset + 1, left - 1;
    }
  }

  /** One file row: its visible records, then a jump over the
      clipped-away rest (file_line_skip); what is left of the rectangle
      moves on by one row. */
  method LoadGlyphLine(glyphs: array<Glyph>, mf: MemFile, storage: StorageMode, destWidth: int,
                       width: nat, effW: nat, o: int, rows: nat, ghost whole: seq<Glyph>)
    requires mf.Valid() && effW <= width && rows > 0
    requires RowsFit(glyphs.Length, destWidth, o, effW, rows)
    requires RowsFit(|mf.data|, RecordSize(storage) * width, mf.pos, RecordSize(storage) * width, rows)
    requires RectWrite(glyphs[..], Written(mf.data, storage), mf.pos, RecordSize(storage), RecordSize(storage) * width,
                       o, destWidth, effW, rows) == whole
    modifies glyphs, mf
    ensures mf.Valid()
    ensures RowsFit(glyphs.Length, destWidth, o + destWidth, effW, rows - 1)
    ensures RowsFit(|mf.data|, RecordSize(storage) * width, mf.pos, RecordSize(storage) * width, rows - 1)
    ensures RectWrite(glyphs[..], Written(mf.data, storage), mf.pos, RecordSize(storage), RecordSize(storage) * width,
                      o + destWidth, destWidth, effW, rows - 1) == whole
  {
    ghost var p := mf.pos;
    AfterSplit(storage, p, effW, width);
    LoadGlyphRow(glyphs, mf, storage, o, effW);
    var fileLineSkip := if storage == BoardStorage then (width - effW) * 6 else (width - effW) * 2;
    mf.Skip(fileLineSkip);
  }

  /** `rows` file rows onto the cells from `o` on, one destination row
      apart. */
  method LoadGlyphRect(glyphs: array<Glyph>, mf: MemFile, storage: StorageMode, destWidth: int,
                       width: nat, effW: nat, o: int, rows: nat)
    requires mf.Valid() && effW <= width
    requires RowsFit(glyphs.Length, destWidth, o, effW, rows)
    requires RowsFit(|mf.data|, RecordSize(storage) * width, mf.pos, RecordSize(storage) * width, rows)
    modifies glyphs, mf
    ensures mf.Valid()
    ensures glyphs[..] == RectWrite(old(glyphs[..]), Written(mf.data, storage), old(mf.pos), RecordSize(storage),
                                    RecordSize(storage) * width, o, destWidth, effW, rows)
  {
    ghost var whole := RectWrite(glyphs[..], Written(mf.data, storage), mf.pos, RecordSize(storage),
                                 RecordSize(storage) * width, o, destWidth, effW, rows);
    var offset := o;
    var left: nat := rows;
    while left > 0
      invariant mf.Valid()
      invariant RowsFit(glyphs.Length, destWidth, offset, effW, left)
      invariant RowsFit(|mf.data|, RecordSize(storage) * width, mf.pos, RecordSize(storage) * width, left)
      invariant RectWrite(glyphs[..], Written(mf.data, storage), mf.pos, RecordSize(storage),
                          RecordSize(storage) * width, offset, destWidth, effW, left) == whole
    {
      LoadGlyphLine(glyphs, mf, storage, destWidth, width, effW, offset, left, whole);
      offset, left := offset + destWidth, left - 1;
    }
  }

  /** The rectangle `width` x `height` records from the cursor on, clipped
      at the edges of a destination `destWidth` x `destHeight` and loaded
      into it at (startX, startY). An origin row at or past the height
      clips the height to nothing or less, so the row loop never runs. */
  method LoadGlyphs(glyphs: array<Glyph>, destWidth: int, destHeight: int, mf: MemFile, storage: StorageMode,
                    width: nat, height: nat, startX: int, startY: int)
    requires mf.Valid() && glyphs.Length == destWidth * destHeight
    requires 0 <= startX < destWidth && 0 <= startY
    requires mf.pos + RecordSize(storage) * (width * height) <= |mf.data|
    modifies glyphs, mf
    ensures mf.Valid()
    ensures startY >= destHeight ==> glyphs[..] == old(glyphs[..])
    ensures startY < destHeight ==>
      RowsFit(glyphs.Length, destWidth, startX + startY * destWidth, Effective(width, startX, destWidth),
              Effective(height, startY, destHeight))
    ensures startY < destHeight ==>
      glyphs[..] == RectWrite(old(glyphs[..]), Written(mf.data, storage), old(mf.pos), RecordSize(storage),
                              RecordSize(storage) * width, startX + startY * destWidth, destWidth,
                              Effective(width, startX, destWidth), Effective(height, startY, destHeight))
  {
    var offset := startX + startY * destWidth;
    var effW := width;
    var effH := height;
    if effW + startX >= destWidth {
      effW := destWidth - startX;
    }
    if effH + startY >= destHeight {
      effH := destHeight - startY;
    }
    if effH > 0 {
      RectRowsFit(destWidth, destHeight, startX, startY, effW, effH);
      PayloadRowsFit(|mf.data|, mf.pos, RecordSize(storage), width, effH, height);
      LoadGlyphRect(glyphs, mf, storage, destWidth, width, effW, offset, effH);
    }
  }

  /** MZM_LOAD_TO_OVERLAY: an overlay that is off is switched on
      (setup_overlay with mode 3), then the rectangle is loaded into the
      board's overlay. */
  method LoadToOverlay(b: Board, mf: MemFile, storage: StorageMode, width: nat, height: nat,
                       startX: int, startY: int)
    requires b.Valid() && mf.Valid()
    requires 0 <= startX < b.width && 0 <= startY
    requires mf.pos + RecordSize(storage) * (width * height) <= |mf.data|
    modifies b`overlayMode, b.overlay, mf
    ensures mf.Valid()
    ensures b.overlayMode == if old(b.overlayMode) == 0 then 3 else old(b.overlayMode)
    ensures startY >= b.height ==> b.overlay[..] == old(b.overlay[..])
    ensures startY < b.height ==>
      RowsFit(b.overlay.Length, b.width, startX + startY * b.width, Effective(width, startX, b.width),
              Effective(height, startY, b.height))
    ensures startY < b.height ==>
      b.overlay[..] ==
        RectWrite(old(b.overlay[..]), Written(mf.data, storage), old(mf.pos), RecordSize(storage),
                  RecordSize(storage) * width, startX + startY * b.width, b.width,
                  Effective(width, startX, b.width), Effective(height, startY, b.height))
  {
    b.SetupOverlay();
    LoadGlyphs(b.overlay, b.width, b.height, mf, storage, width, height, startX, startY);
  }

  /** MZM_LOAD_TO_VLAYER: the rectangle is loaded into the world's
      vlayer. */
  method LoadToVlayer(world: World, mf: MemFile, storage: StorageMode, width: nat, height: nat,
                      startX: int, startY: int)
    requires world.Valid() && mf.Valid()
    requires 0 <= startX < world.vlayerWidth && 0 <= startY
    requires mf.pos + RecordSize(storage) * (width * height) <= |mf.data|
    modifies world.vlayer, mf
    ensures mf.Valid()
    ensures startY >= world.vlayerHeight ==> world.vlayer[..] == old(world.vlayer[..])
    ensures startY < world.vlayerHeight ==>
      RowsFit(world.vlayer.Length, world.vlayerWidth, startX + startY * world.vlayerWidth,
              Effective(width, startX, world.vlayerWidth), Effective(height, startY, world.vlayerHeight))
    ensures startY < world.vlayerHeight ==>
      world.vlayer[..] ==
        RectWrite(old(world.vlayer[..]), Written(mf.data, storage), old(mf.pos), RecordSize(storage),
                  RecordSize(storage) * width, startX + startY * world.vlayerWidth, world.vlayerWidth,
                  Effective(width, startX, world.vlayerWidth), Effective(height, startY, world.vlayerHeight))
  {
    LoadGlyphs(world.vlayer, world.vlayerWidth, world.vlayerHeight, mf, storage, width, height, startX, startY);
  }
}
