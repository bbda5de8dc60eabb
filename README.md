# MegaZeux MZM codec and legacy world loader in Dafny

This project models two parts of MegaZeux:

- **The MZM codec** (`src/mzm.c`). An MZM file holds a rectangle of a board, or of the overlay or the
  vlayer.
  - Saving writes a 20-byte `MZM3` header and a payload: six bytes per cell in board storage, or a char
    and a color per cell in layer storage.
  - When the rectangle holds robots, saving patches the header with the robot table position, the robot
    count and the savegame flag. The robots themselves go into a zip archive after the tiles.
  - Loading parses an `MZMX`, `MZM2` or `MZM3` header and checks the declared size against the file.
  - Loading then copies the clipped rectangle onto the board, the overlay or the vlayer. It frees the
    robots it replaces and places the file's robots in free slots. The tile copy skips the player's
    cell; the robot placement as written does not always (see "## Findings"). The model never
    overwrites the player.
- **The legacy (2.x) world code** (`src/legacy_world.c`).
  - The structural validator walks a world or save file before anything is loaded. It reports
    `Success`, `Version`, `Invalid`, `Missing` or `Protected`.
  - A password-protected world is decrypted: the password is normalised, the XOR key is derived, and
    every block is XORed. The global robot and board offsets are fixed for the removed password.
  - The retry policy validates again after decrypting.
  - The loader reads the world header, the status counter names, the playing module's path, the
    counters and strings, the file names, the vlayer, the SFX table, the board table and the board names
    into the world. Of the other save globals and world scalars, only the reads that can fail are
    modelled; the rest are skipped by their byte count.

Layout, following the program:

- `bytes.dfy`: byte and little-endian helpers, C integer conversions, and bitwise XOR on naturals.
- `memfile.dfy`: the `memfile` reader and writer used by the MZM code.
- `cfile.dfy`: stdio on a regular file: `fgetc`, `fgetw`, `fgetd`, `fread`, `fseek` and `ftell`.
- `zip_props.dfy`: the file properties of the robot archive.
- `mzm_format.dfy`: the header, the storage modes, the robot entry names and the validation arithmetic.
- `mzm_board.dfy`: the board, the world and `find_free_robot`.
- `mzm_save.dfy`: `save_mzm_calculate_size` and `save_mzm_common`.
- `mzm_load_header.dfy`: `load_mzm_header`.
- `mzm_tiles.dfy`, `mzm_tile_load.dfy`: the tile phase of a load onto a board.
- `mzm_robots.dfy`, `mzm_robot_load.dfy`: the robot phase of a load onto a board.
- `mzm_glyphs.dfy`: loads onto the overlay and the vlayer.
- `mzm_load.dfy`: `load_mzm_common`, `load_mzm`, `load_mzm_memory` and `load_mzm_size`.
- `mzm_rect.dfy`: rectangle writes over a flat array.
- `mzm_roundtrip.dfy`: a saved rectangle loaded back.
- `legacy_cipher.dfy`: `get_pw_xor_code`, `decrypt_block`, `decrypt_and_fix_offset` and `decrypt`.
- `legacy_validate.dfy`: `__validate_legacy_world_file` and `validate_legacy_world_file`.
- `legacy_load.dfy`: `legacy_load_counter`, `legacy_load_string` and `legacy_load_world`.

How the model works:

- Each imperative routine is a method with loops over arrays and objects. Its postcondition ties the
  new state to a specification function of the old state; for the world loader these are `WorldInfoAt`
  and `BoardSectionAt` and the functions they are built from. The properties are lemmas about those
  functions, and invariants the methods keep.
- A byte is an `int` in 0..255.
- Level arrays are read as unsigned bytes.
- C's 32-bit wrap-around is written out where it matters:
  - `Wrap32` for the MZM size check;
  - `LeDword` for signed `fgetd`;
  - `Unsigned` for the board table.

## Model

| member | source | states |
|---|---|---|
| MzmFormat.ParseHeader | src/mzm.c:359-420 | A parsed header comes from at least 16 bytes. Width and height are below 65536. Storage mode, savegame mode and robot count are bytes. Data starts at byte 16 or 20, inside the buffer. |
| MzmFormat.HeaderRejections | src/mzm.c:359-420 | The header parses exactly when the buffer has 16 bytes and starts with `MZMX` or `MZM2`, or with `MZM3` and has 20 bytes. An `MZMX` or `MZM2` header reports world version 2.83. |
| MzmFormat.MzmXDefaults | src/mzm.c:375-386 | An `MZMX` header takes width and height from bytes 4 and 5. It has board storage, no robots, savegame mode 0 and version 2.83. Data starts at byte 16. |
| MzmFormat.Mzm3Fields | src/mzm.c:388-415 | An `MZM3` header takes its fields from their little-endian offsets, and data starts at byte 20. |
| MzmFormat.StorageForLayer | src/mzm.c:64 | The storage is layer storage exactly when the save mode is not board-to-board. |
| MzmFormat.StorageByte | src/mzm.c:64 | The stored byte is 0 exactly for board storage. |
| MzmFormat.SavedHeaderParses | src/mzm.c:111-128 | The saved header, followed by anything, parses back. It gives the saved width, height and storage byte, no robots, savegame mode 0, the current version, and data at byte 20. |
| MzmFormat.PatchedHeader | src/mzm.c:206-219 | Bytes 8..11 hold the table position and byte 12 the robot count. Byte 14 holds the savegame flag. Every other header byte is unchanged. |
| MzmFormat.PatchedHeaderParses | src/mzm.c:200-219 | The patched header, followed by anything, parses back to the table position, robot count and savegame flag written into it. |
| MzmFormat.EntryNamesDistinct | src/mzm.c:225-232 | Two robot entry names `r%2.2X` are equal exactly when the indices are equal, for indices below 256. |
| MzmFormat.EntryNameDigits | src/mzm.c:227 | The two characters after `r` are upper-case hexadecimal digits. |
| MzmFormat.AcceptedPayloadFits | src/mzm.c:442-454 | An accepted header's payload fits in the file. When there is a robot table, the payload ends at or before it and the table lies inside the file. |
| MzmFormat.AcceptedAsWrittenAgrees | src/mzm.c:442-454 | The check as written agrees with the intended check whenever width times height times the stride fits in 32 bits. |
| MzmFormat.OverflowAccepted | src/mzm.c:443-454 | A 16-byte `MZM2` file of 32768 x 32768 cells passes the check as written, because the size wraps to -2^31. The intended check rejects it. |
| MzmFormat.EffectiveWithin | src/mzm.c:492-496 | The clipped extent is at most the file's extent and ends at or before the destination edge. It is either the whole extent or exactly what is left to the edge. |
| MzmBoard.FreeSlot | src/mzm.c:762 | The result is the first empty robot slot at or after the start, or -1 exactly when every such slot is taken. |
| MzmBoard.Board.SetupOverlay | src/mzm.c:255-256 | An overlay mode of 0 becomes 3. Any other mode is kept. |
| MzmBoard.Board.constructor | src/mzm.c:473-487 | A board of the given size over the given level, overlay and robot arrays, with no overlay and no robots by name. |
| MzmBoard.World.constructor | src/mzm.c:887-890 | A world over the given vlayer, of the given size and version. |
| MzmSave.RobotsInRect | src/mzm.c:81-94 | Every robot selected lies inside the rectangle, and there are no more than in the list. |
| MzmSave.MzmSizeCoversTiles | src/mzm.c:63-102 | The computed size covers the header and tiles. It is exactly that when the mode is not board-to-board or the rectangle holds no robot. |
| MzmSave.CalculateSize | src/mzm.c:59-105 | The storage is layer storage unless the mode is board-to-board. The size is the header, plus the tiles, plus each robot in the rectangle, plus the zip overhead when there are robots. |
| MzmSave.SavedCell | src/mzm.c:158-195 | A robot is saved with param 0. A sensor, sign, scroll or player becomes a custom block showing its char and color. Any other cell is saved unchanged. The under fields are always kept, and no saved id is a sensor, sign, scroll or player. |
| MzmSave.Shown | src/mzm.c:294-302 | Cell k shows the char and the color the board displays at k. |
| MzmSave.SavedBoardPayloadLength | src/mzm.c:154-198 | A board-storage payload is six bytes per cell of the rectangle. |
| MzmSave.LayerPayloadLength | src/mzm.c:273-281 | A layer-storage payload is two bytes per cell of the rectangle. |
| MzmSave.WriteSavedCell | src/mzm.c:158-195 | The writer gains the six bytes of the saved cell. |
| MzmSave.WriteBoardRow | src/mzm.c:156-196 | The writer gains one saved row, and the robot numbers met in it are returned in order. |
| MzmSave.WriteBoardTiles | src/mzm.c:154-198 | The writer gains the board payload of the rectangle, and the robot numbers are the rectangle's robots in row order. |
| MzmSave.WriteLayerRow | src/mzm.c:275-279 | The writer gains the char and color of each cell of one row. |
| MzmSave.WriteLayerTiles | src/mzm.c:273-281 | The writer gains the layer payload of the rectangle. |
| MzmSave.WriteHeader | src/mzm.c:114-128 | The first 20 bytes are the saved header, and the cursor is at byte 20. |
| MzmSave.PatchRobotFields | src/mzm.c:207-219 | The header is patched with table position, count and savegame flag, and the payload is untouched. |
| MzmSave.SaveBoardTiles | src/mzm.c:133-219 | The payload is the rectangle's saved board cells. The header is patched exactly when the rectangle holds robots. The table starts right after the tiles. |
| MzmSave.SaveBoardPayload | src/mzm.c:146-198 | The header is kept, the payload is the rectangle's saved board cells, the robot numbers are the rectangle's robots, and the table starts right after the tiles. |
| MzmSave.PatchIfRobots | src/mzm.c:200-219 | The header is patched exactly when the robot count is not 0, and the tiles are kept. |
| MzmSave.SaveLayerTiles | src/mzm.c:270-281 | The header is kept, the payload is the layer payload of the rectangle, and the table starts right after the tiles. |
| MzmSave.SaveLayerMode | src/mzm.c:241-304 | The payload is the overlay, the displayed board, or the vlayer, as the mode says. Saving the overlay turns overlay mode 0 into 3. |
| MzmSave.SaveCommon | src/mzm.c:107-307 | Header and payload for every mode: the saved header, patched only for a board with robots, with savegame normalised to 0 or 1, followed by the mode's payload. |
| MzmLoadHeader.LoadHeader | src/mzm.c:359-420 | The header read from the memfile is exactly the parsed header, and the cursor stands at its data start. |
| MzmLoadHeader.ReadMzmXFields | src/mzm.c:375-386 | The `MZMX` fields and defaults, with the cursor at byte 16. |
| MzmLoadHeader.ReadCommonFields | src/mzm.c:388-397 | The `MZM2`/`MZM3` fields at their offsets, with the cursor at byte 15. |
| MzmTiles.IncomingId | src/mzm.c:518-531 | An incoming id at or above SENSOR becomes 0 unless it is a robot. Every other id is kept. |
| MzmTiles.RecordCell | src/mzm.c:518-565 | A board record gives id, param, color and under fields from its six bytes. An under id at or above SENSOR becomes the empty under cell 0/0/7. |
| MzmTiles.LayerCell | src/mzm.c:837-842 | A layer record becomes a custom block with the record's char and color over an empty under cell 0/0/0. |
| MzmTiles.StoredCell | src/mzm.c:550-568 | A player cell is kept. Any other cell becomes the record read for its storage mode. |
| MzmTiles.FreeRobot | src/mzm.c:545-546 | Only the replaced robot's slot is emptied. |
| MzmTiles.Note | src/mzm.c:524-526 | A robot marker is appended while fewer than 256 are noted. |
| MzmTiles.Cap | src/mzm.c:507 | At most the first 256 markers are kept. |
| MzmTiles.LoadedBoardCell | src/mzm.c:514-585 | Inside the clipped rectangle a cell becomes the stored cell read from its record. Every cell outside is unchanged. |
| MzmTiles.LoadedBoardSlots | src/mzm.c:535-547 | A robot slot is emptied exactly when a robot cell of the clipped rectangle points at it. |
| MzmTiles.LoadedRobotFreed | src/mzm.c:545-546 | Every robot replaced inside the rectangle has its slot freed. |
| MzmTiles.TileRowsMarkers | src/mzm.c:514-585 | The markers are the robot records of the rectangle in file order, clipped part and skipped part alike, capped at 256. |
| MzmTiles.MarkerRectInside | src/mzm.c:524-525 | Every placed marker lies inside the clipped rectangle. |
| MzmTiles.SkipMarkersNotPlaced | src/mzm.c:574-584 | Robots in the skipped part of a file row get a marker that is not placed. |
| MzmTiles.ClearRectAt | src/mzm.c:535-547 | The slot table after clearing a rectangle, slot by slot. |
| MzmTiles.MarkerOverflow | src/mzm.c:507-526 | A 17x16 rectangle of robots yields 272 markers, more than the 256 locations the loader has. |
| MzmTiles.RobotRectFileAccepted | src/mzm.c:438-454 | That 17x16 `MZM2` file of robots parses and passes the size check. |
| MzmTileLoad.ReadRecordId | src/mzm.c:518-531 | The cursor moves one byte. The id is the incoming id, and a robot marker is noted. |
| MzmTileLoad.ClearRobotId | src/mzm.c:545-546 | The replaced robot's slot is freed. |
| MzmTileLoad.LoadBoardRecord | src/mzm.c:518-568 | One board record: the cell becomes the stored cell, the replaced robot is freed, and the cursor moves six bytes. |
| MzmTileLoad.LoadLayerRecord | src/mzm.c:821-845 | One layer record: the cell becomes the stored layer cell, the replaced robot is freed, and the cursor moves two bytes. |
| MzmTileLoad.LoadTileRow | src/mzm.c:516-569 | One clipped row gives the cells, slots and markers of the row function, and the cursor moves past it. |
| MzmTileLoad.LoadRowCell | src/mzm.c:518-568 | One record moves the cursor by the record size and leaves the rest of the row to load to the same result. |
| MzmTileLoad.LoadTileLine | src/mzm.c:516-584 | One file row leaves the rest of the rectangle to load to the same result, one row further on. |
| MzmTileLoad.SkipBoardRecords | src/mzm.c:574-584 | The skipped records note their robots as not placed, and the cursor moves six bytes each. |
| MzmTileLoad.SkipTail | src/mzm.c:574-584 | The clipped-away records of a row note their robots as `SkipRecords` says, and the cursor moves past them. |
| MzmTileLoad.LoadTileRect | src/mzm.c:514-585 | The cells, slots and markers after the loop are those of the rectangle function. |
| MzmTileLoad.LoadTilesToBoard | src/mzm.c:500-850 | The tile phase on a board, for either storage mode, against the same function. |
| MzmGlyphs.LoadedGlyph | src/mzm.c:905-949 | Inside the clipped rectangle a glyph is the record's char and color. Board storage takes param and color. Every glyph outside is unchanged. |
| MzmGlyphs.LoadGlyph | src/mzm.c:915-942 | One record is written to one glyph. |
| MzmGlyphs.LoadGlyphRow | src/mzm.c:913-947 | One clipped row of records is written to the layer. |
| MzmGlyphs.LoadGlyphLine | src/mzm.c:913-947 | One file row leaves the rest of the rectangle to write the same layer, one row further on. |
| MzmGlyphs.LoadGlyphRect | src/mzm.c:905-949 | The clipped rectangle of records is written to the layer. |
| MzmGlyphs.LoadGlyphs | src/mzm.c:893-949 | The rectangle is clipped to the layer, and the layer is written as the rectangle function says. An origin row at or past the layer's height leaves the layer unchanged; an origin on the last row loads that one row. |
| MzmGlyphs.LoadToOverlay | src/mzm.c:873-883 | The overlay is set up when off, then loaded. An origin row at or past the board's height leaves the overlay glyphs unchanged. |
| MzmGlyphs.LoadToVlayer | src/mzm.c:884-891 | The vlayer is loaded with its own width and height. An origin row at or past its height leaves it unchanged. |
| MzmRobots.LegacyFetchCursor | src/mzm.c:657-692 | A fetch that does not fail decodes the robot at the cursor and moves the cursor by its computed size, which stays inside the file. A failed fetch gives the blank robot and leaves the cursor at or past the end. |
| MzmRobots.LegacyFailureSticks | src/mzm.c:681-691 | After one failed legacy fetch, every later fetch fails too. |
| MzmRobots.ZipFetchFinds | src/mzm.c:695-731 | The search skips non-robot entries and lower robots. It loads the entry for robot i, stops blank at a higher robot, and is exhausted at the end of the archive. |
| MzmRobots.ZipFetchSaved | src/mzm.c:225-232 | In an archive as saved, robot i is found at entry i and loaded. |
| MzmRobots.Place | src/mzm.c:733-795 | The corrected placement, with the player check before every branch, keeps the number of cells and of robot slots. |
| MzmRobots.PlaceAgrees | src/mzm.c:741-789 | The placement as the code writes it, where the player check guards only the branch with a free slot, agrees with the corrected placement whenever the marked cell is not the player. |
| MzmRobots.DummyOverwritesPlayer | src/mzm.c:741-746 | As written, a dummy robot on a player cell turns it into a custom block. The corrected placement changes nothing. |
| MzmRobots.FullTableOverwritesPlayer | src/mzm.c:783-789 | As written, with no free slot, a robot on a player cell empties it. The corrected placement changes nothing. |
| MzmRobots.PlaceFrame | src/mzm.c:733-795 | Only the marked cell changes, players never change, and taken slots are kept. The name list only grows. A dummy changes no slot. |
| MzmRobots.PlaceNewRobot | src/mzm.c:760-777 | A placed robot sits in a previously free slot at index 1 or above, with the marker's position and the world version. It is added by name, and the cell's param is its slot. |
| MzmRobots.RobotPhaseFrame | src/mzm.c:646-796 | Over all robots, only marked cells change, players never change, taken slots are kept, and the name list only grows. |
| MzmRobots.RobotPhaseUnplaced | src/mzm.c:586-589 | With no robot record met, the robot loop places none of the robots and the board is unchanged. |
| MzmRobotLoad.FetchLegacyRobot | src/mzm.c:657-692 | The legacy branch against its fetch function. |
| MzmRobotLoad.FetchZipRobot | src/mzm.c:695-731 | The archive search loop against its search function. |
| MzmRobotLoad.PlaceRobot | src/mzm.c:733-795 | The placement on the board equals the corrected placement. |
| MzmRobotLoad.LoadRobot | src/mzm.c:646-795 | One loop pass: fetch then place. A failure makes every later robot a dummy. |
| MzmRobotLoad.LoadRobotList | src/mzm.c:646-796 | The loop over the robots equals the robot-phase function. |
| MzmRobotLoad.LoadRobots | src/mzm.c:592-644 | The source follows the version: a legacy table or a zip archive. A load is a dummy from the start when it comes from a savegame outside a game or from a newer version. |
| MzmLoad.LoadedMarkersInRect | src/mzm.c:514-590 | Every robot marker of a load lies inside the clipped rectangle on the board. |
| MzmLoad.LoadKeepsPlayer | src/mzm.c:550 | A load onto a board never changes a player cell, through tiles or through robots. |
| MzmLoad.LoadKeepsOutside | src/mzm.c:492-498 | A load onto a board never changes a cell outside the clipped rectangle. |
| MzmLoad.LoadBelowBoard | src/mzm.c:491-496 | An origin row at or past the board's height leaves the board as it was: no tile is written and no robot is placed. |
| MzmLoad.ClippedPayloadFits | src/mzm.c:446-454 | For an accepted header, the whole payload and any clipped part of it lie inside the file. |
| MzmLoad.LoadOntoBoard | src/mzm.c:471-855 | The board after a board load is the tiles function followed by the robot phase, for any origin row; an origin row at or past the height leaves the board as it was (`LoadBelowBoard`). |
| MzmLoad.LoadedLayer | src/mzm.c:858-953 | A layer load keeps the layer's size. |
| MzmLoad.LoadAccepted | src/mzm.c:468-954 | Each load mode writes its own destination and nothing else, for any origin row. |
| MzmLoad.LoadCommon | src/mzm.c:424-969 | The result is 0 or -1. It is 0 exactly when the header parses and passes the checks, and then the load is done as its mode says, for any origin row. On -1 nothing changes. |
| MzmLoad.LoadMzm | src/mzm.c:971-1007 | The result is 0 exactly when the file exists, is not empty, and its header parses and passes the checks. Then the load is done as its mode says, for any origin row. Otherwise the result is -1, and the board, its overlay mode, the overlay and the vlayer are unchanged. |
| MzmLoad.LoadMzmMemory | src/mzm.c:1009-1016 | The result is 0 exactly when the buffer's header parses and passes the checks. Then the load is done as its mode says, for any origin row. Otherwise the result is -1, and the board, its overlay mode, the overlay and the vlayer are unchanged. |
| MzmLoad.LoadMzmSize | src/mzm.c:1018-1042 | Width and height come from the header in the first 20 bytes, or are -1 when the file is missing or the header does not parse. |
| MzmRoundTrip.LayerPayloadIsGrid | src/mzm.c:273-281 | The layer payload is the grid of the rectangle's glyph records, row-major. |
| MzmRoundTrip.SavedPayloadIsGrid | src/mzm.c:154-198 | The board payload is the grid of the rectangle's saved records, row-major. |
| MzmRoundTrip.GlyphRoundTrip | src/mzm.c:277-278 | A glyph written as two bytes reads back as the same glyph. |
| MzmRoundTrip.CellRoundTrip | src/mzm.c:166-195 | A reloadable cell written as six bytes reads back as the same cell. |
| MzmRoundTrip.GlyphHeld | src/mzm.c:273-281 | The saved bytes of cell (x, y) sit at offset y * 2w + 2x of the payload. |
| MzmRoundTrip.SavedRecordHeld | src/mzm.c:154-198 | The saved record of cell (x, y) sits at offset y * 6w + 6x of the payload. |
| MzmRoundTrip.LoadedLayerAt | src/mzm.c:931-949 | A layer-storage load writes the record at y * 2w + 2x to destination cell (startX + x, startY + y). |
| MzmRoundTrip.LoadedTilesAt | src/mzm.c:514-568 | A board-storage load writes the record at y * 6w + 6x to board cell (startX + x, startY + y), unless that cell is the player. |
| MzmRoundTrip.LayerLoadRoundTrip | src/mzm.c:241-283 | A layer saved and loaded back gives each clipped cell the glyph that was saved from it. |
| MzmRoundTrip.BoardLoadRoundTrip | src/mzm.c:154-198 | A board rectangle saved and loaded back gives each clipped non-player cell its saved cell, whenever the saved cell is one the loader keeps. |
| ZipProps.SavedArchive | src/mzm.c:225-232 | The saved archive holds one robot entry per robot, numbered in order. |
| ZipProps.ZipReader.NextProp | src/mzm.c:697 | The properties of the next entry, or none at the end. |
| ZipProps.ZipReader.SkipFile | src/mzm.c:712 | The reader moves one entry on. |
| ZipProps.ZipReader.ReadRobot | src/mzm.c:726-727 | The robot of the current entry, and the reader moves on. |
| LegacyCipher.XorBytesInvolution | src/legacy_world.c:243-244 | XORing a block twice with the same key restores it. |
| LegacyCipher.XorKeyByteInvolution | src/legacy_world.c:244 | XORing a byte twice with the same key restores it. |
| LegacyCipher.NormalizeUndoesObfuscation | src/legacy_world.c:331-336 | Password normalisation inverts the obfuscation it was stored with, byte by byte. |
| LegacyCipher.NormalizePassword | src/legacy_world.c:331-336 | Each of the 15 password bytes is normalised with its magic-code byte and the protection method. |
| LegacyCipher.GetPwXorCode | src/legacy_world.c:117-161 | The password is cleared after its first NUL, and the key is the password's key. |
| LegacyCipher.ClearPasswordTail | src/legacy_world.c:123-126 | Every password byte from the first NUL on is zeroed, the others are kept, and all stay bytes. |
| LegacyCipher.FoldByte | src/legacy_world.c:128-145 | One pass of the key loop equals `KeyStep`: roll, then add the signed byte at odd positions or XOR it at even ones. |
| LegacyCipher.FinishWork | src/legacy_world.c:147-158 | The statements after the loop equal `FinishKey`: add the method, roll, and turn 0 into 86. |
| LegacyCipher.PwXorCode | src/legacy_world.c:156-158 | The key is never 0. |
| LegacyCipher.KeyDependsOnlyOnPrefix | src/legacy_world.c:123-126 | Two passwords that agree up to the first NUL have the same key. |
| LegacyCipher.AsciiPasswordKeyIsByte | src/legacy_world.c:128-158 | With ASCII password bytes and a protection method of 0..3, the key lies in 1..255. |
| LegacyCipher.FinishKeyOfByte | src/legacy_world.c:147-158 | The final add and roll of a byte gives a key in 1..255. |
| LegacyCipher.KeyReplication | src/legacy_world.c:340-342 | The word key is the byte key twice, and the dword key is the byte key four times. |
| LegacyCipher.FixOffsetUndoesProtection | src/legacy_world.c:255-271 | Fixing an offset XORs it with the dword key and subtracts the password length, which undoes the protection. |
| LegacyCipher.BlockSpecInside | src/legacy_world.c:235-251 | A block inside the file decrypts to its bytes XORed with the key, and the read position moves past it. |
| LegacyCipher.BlockSpecTruncated | src/legacy_world.c:235-251 | A block that runs past the end fails at the end of the file. Only whole buffers were written before the failing read. |
| LegacyCipher.BlockSpecTruncatedOutput | src/legacy_world.c:235-251 | What a truncated block did write is the file's bytes from the start, XORed with the key. |
| LegacyCipher.DecryptedFileIsUnprotected | src/legacy_world.c:344-348 | When the backup and the reopening succeed, the decrypted file keeps the title, has protection byte 0, and carries the `M\x02\x11` magic. |
| LegacyCipher.Decryption.constructor | src/legacy_world.c:338-342 | The decryption state holds the byte, word and dword keys. |
| LegacyCipher.Decryption.DecryptChunk | src/legacy_world.c:237-247 | One buffer is read, XORed and written, or the read fails and nothing is written. |
| LegacyCipher.Decryption.XorBuffer | src/legacy_world.c:243-244 | The first `len` buffer bytes are XORed with the key in place. |
| LegacyCipher.Decryption.DecryptBlock | src/legacy_world.c:230-253 | The loop over buffers against the block function. |
| LegacyCipher.Decryption.DecryptAndFixOffset | src/legacy_world.c:255-271 | The offset read, fixed and written against its function. An offset of EOF fails. |
| LegacyCipher.Decryption.DecryptBoardTable | src/legacy_world.c:384-394 | The board table: each length is XORed with the dword key and each offset is fixed. |
| LegacyCipher.Decryption.DecryptBoardEntry | src/legacy_world.c:386-394 | One table entry against `BoardEntrySpec`: the length XORed with the dword key, then the offset fixed. |
| LegacyCipher.Decryption.DecryptSfx | src/legacy_world.c:362-377 | After a zero board count: the SFX length, the SFX table, the real board count and the boards, against their function. |
| LegacyCipher.Decryption.DecryptTableAndRest | src/legacy_world.c:380-398 | The board titles, the table and the rest of the file. |
| LegacyCipher.Decryption.DecryptBoards | src/legacy_world.c:380-398 | The output gains `BoardsSpec`: the board names, then the table and the rest, stopping where a read fails. |
| LegacyCipher.Decryption.DecryptTail | src/legacy_world.c:361-398 | The output gains `TailSpec`: the XORed board count, the SFX part when it is 0, then the boards. |
| LegacyCipher.Decryption.DecryptBody | src/legacy_world.c:354-398 | The world blocks, the global robot offset and everything after. |
| LegacyCipher.Decrypt | src/legacy_world.c:273-410 | The new file contents equal the decrypted-file function. That function keeps the file when the backup or the reopening fails. It is empty when the 44-byte header cannot be read. Otherwise it is the title, a zero protection byte, the 2.11 magic and the decrypted rest. |
| LegacyCipher.HeaderKey | src/legacy_world.c:320-342 | The key comes from the protection method and the normalised password in the first 44 bytes. |
| LegacyValidate.CheckSaveHeader | src/legacy_world.c:451-489 | The save magic's version gate, then the fixed skips and the mod name, against the save walk. |
| LegacyValidate.SkipCounters | src/legacy_world.c:492-509 | The counter walk: a negative count or name length is invalid. |
| LegacyValidate.SkipCounter | src/legacy_world.c:500-508 | One counter record against `CounterSpec`: a negative name length or a failed seek is invalid, and otherwise the walk is at the cursor. |
| LegacyValidate.SkipStrings | src/legacy_world.c:512-532 | The string walk: a negative count, name length or value length is invalid. |
| LegacyValidate.SkipString | src/legacy_world.c:519-530 | One string record against `StringSpec`: a negative name or value length, or a failed seek, is invalid. |
| LegacyValidate.SkipIoNames | src/legacy_world.c:534-544 | The sprite, misc and file-name skips. |
| LegacyValidate.CheckScreenMode | src/legacy_world.c:546-552 | A screen mode above 3 is invalid. Modes 2 and 3 skip the SMZX palette. |
| LegacyValidate.SkipVlayer | src/legacy_world.c:554-563 | A negative vlayer size is invalid. The chars and colors are skipped. |
| LegacyValidate.CheckSaveFile | src/legacy_world.c:447-566 | The whole savegame walk to the global robot pointer. |
| LegacyValidate.CheckPalette | src/legacy_world.c:614-620 | The palette passes exactly when all 48 components are in 0..63. |
| LegacyValidate.CheckWorldHeader | src/legacy_world.c:568-623 | The world walk: truncation, protection, magic, version and palette. |
| LegacyValidate.CheckBoardCount | src/legacy_world.c:628-654 | The board count, with the SFX table when the first count is 0, against its function. |
| LegacyValidate.WalkToBoards | src/legacy_world.c:447-654 | Either walk up to the board table equals `ValidateWalk`, and the cursor is at the table when it is reached. |
| LegacyValidate.ValidateLegacyWorldFile | src/legacy_world.c:421-679 | The validator as written equals its function. |
| LegacyValidate.ValidateLegacyWorldFileChecked | src/legacy_world.c:656-663 | The validator with the intended board-table check equals its function. |
| LegacyValidate.ProtectedExactly | src/legacy_world.c:579-587 | A file is reported protected exactly when it is a world whose byte 25 is 1..3. |
| LegacyValidate.WorldVersionGate | src/legacy_world.c:590-609 | An unprotected world with a known magic is a version mismatch exactly when its version is outside 2.51..2.84. |
| LegacyValidate.SaveVersionGate | src/legacy_world.c:451-473 | A savegame with a known magic is a version mismatch exactly when it is not 2.84. |
| LegacyValidate.TableSpanOnlyRejectsZero | src/legacy_world.c:656-663 | For any board count from EOF to 255, read past the world header, the board-table check as written rejects only a zero count, whatever the file size. |
| LegacyValidate.AsWrittenIgnoresTable | src/legacy_world.c:653-667 | As written, a file validates exactly when the walk reaches a non-zero board count. |
| LegacyValidate.TruncatedWorldValidates | src/legacy_world.c:631-663 | A world cut off after its palette validates as written, with a board count of EOF. The intended check rejects it. |
| LegacyValidate.CheckedOnlyRejectsMore | src/legacy_world.c:656-663 | The intended check differs from the check as written only by turning a success into Invalid. |
| LegacyValidate.CheckedWorldSuccess | src/legacy_world.c:568-663 | An accepted world guarantees all of the following: it is long enough and unprotected; its version is supported; its palette is 6-bit; it has at least one board; its names and table lie inside the file. |
| LegacyValidate.SfxWalkOnRecords | src/legacy_world.c:638-646 | Over 50 length-prefixed records the SFX walk ends past them all, unless one is longer than 69. |
| LegacyValidate.BoardCountZero | src/legacy_world.c:631-652 | A zero first count: the walk must cover exactly the size word's bytes, and then the real count follows. |
| LegacyValidate.BoardCountAfterWalk | src/legacy_world.c:648-651 | A complete walk is accepted exactly when its length equals the size word. |
| LegacyValidate.ValidateWithRetry | src/legacy_world.c:681-706 | The retry policy against its function. |
| LegacyValidate.RetryNeverProtected | src/legacy_world.c:687-702 | The policy never reports Protected. |
| LegacyValidate.RetryPassesThrough | src/legacy_world.c:684-705 | A result other than Protected is returned unchanged, and the file is untouched. |
| LegacyValidate.RetryUnlocksDecryptedWorld | src/legacy_world.c:689-698 | A protected world that is decrypted is validated again and is never protected afterwards. |
| LegacyValidate.RetryWithoutDecryptionAborts | src/legacy_world.c:689-702 | A protected world aborts and keeps its contents when decryption is not wanted, or the backup or the reopening fails. |
| LegacyLoad.NCaseEqMatches | src/legacy_world.c:77-83 | `strncasecmp` over n bytes is equality after lower-casing, with the literal padded by NUL. |
| LegacyLoad.ReservedNamesDiverted | src/legacy_world.c:76-87 | A counter whose name matches `mzx_speed` case-insensitively over the name's own length sets the speed. One that matches `_____lock_speed` over its full length, and not `mzx_speed`, sets the lock speed. Neither is inserted. |
| LegacyLoad.InsertedNamesNotReserved | src/legacy_world.c:77-89 | No counter that is inserted has a reserved name. |
| LegacyLoad.CountersBookkeeping | src/legacy_world.c:860-880 | The count drops by one for each counter not inserted. The earlier counters are kept. |
| LegacyLoad.LoadedCounterCount | src/legacy_world.c:862-880 | After the loop the counter count equals the number of counters inserted, and at most the file's count. |
| LegacyLoad.CountersFollowValidator | src/legacy_world.c:492-509 | On a validated file the loader's counter loop ends where the validator's counter walk ends. |
| LegacyLoad.StringsFollowValidator | src/legacy_world.c:512-532 | On a validated file the string loop ends where the validator's walk ends, and every string is complete. |
| LegacyLoad.IoNamesFollowValidator | src/legacy_world.c:900-964 | On a validated file the sprite and file-name reads succeed and end where the validator's skips end. |
| LegacyLoad.VlayerFollowsValidator | src/legacy_world.c:966-1003 | On a validated file the vlayer is read whole and ends where the validator's walk ends. |
| LegacyLoad.ShortPathReadWhole | src/legacy_world.c:942-951 | A path shorter than MAX_PATH is read whole. |
| LegacyLoad.LongPathTruncated | src/legacy_world.c:944-951 | A longer path is cut to MAX_PATH - 1 bytes, and the cursor lags the stored length. |
| LegacyLoad.StatusNamesTerminated | src/legacy_world.c:760-766 | Every status counter name ends in a NUL and keeps its first 14 bytes. |
| LegacyLoad.SfxTerminated | src/legacy_world.c:1020-1027 | After a complete SFX read every effect ends in a NUL. |
| LegacyLoad.SfxFollowsValidator | src/legacy_world.c:1011-1029 | On a validated file the SFX read succeeds and ends where the validator's walk ends. |
| LegacyLoad.BoardTableEntries | src/legacy_world.c:1049-1053 | Each table entry holds its unsigned size and offset, or all ones past the end of the file. |
| LegacyLoad.BoardNamesTerminated | src/legacy_world.c:1087-1101 | Every loaded board's name ends in a NUL, and its robot list is untouched. |
| LegacyLoad.Rebind | src/legacy_world.c:1061-1065 | A loaded board with a robot list gets the global robot in slot 0, and the rest is unchanged. |
| LegacyLoad.LoadIdBlock | src/legacy_world.c:739-757 | The charset and id blocks are read, or the load fails. |
| LegacyLoad.LoadPath | src/legacy_world.c:801-809 | The path read against its function. |
| LegacyLoad.LoadString | src/legacy_world.c:93-110 | One string record against its function. |
| LegacyLoad.ReadBoardTable | src/legacy_world.c:1049-1053 | The table loop against its function. |
| LegacyLoad.LegacyWorld.constructor | src/legacy_world.c:708-721 | An empty world with no counters, strings or boards. |
| LegacyLoad.LegacyWorld.LoadHeader | src/legacy_world.c:723-735 | A savegame takes its version and current board from bytes 5..7. A world takes the given version, name and board 0, and reading resumes at byte 29. |
| LegacyLoad.LegacyWorld.LoadStatusCounters | src/legacy_world.c:760-766 | The six names are read and each is cut to 14 bytes and a NUL. |
| LegacyLoad.LegacyWorld.LoadSaveGlobals | src/legacy_world.c:768-810 | The two reads that can fail (the keys and the saved boards) and the playing module's path: when both reads succeed, the result and the path are those of the path read, and otherwise the load fails with the path unchanged. The other scalars are skipped by byte count. |
| LegacyLoad.LegacyWorld.LoadCounter | src/legacy_world.c:66-91 | One counter record against its function. |
| LegacyLoad.LegacyWorld.LoadCounterList | src/legacy_world.c:860-880 | The counter loop against its function. The count matches the list, and no reserved name is inserted. |
| LegacyLoad.LegacyWorld.LoadStringList | src/legacy_world.c:883-892 | The string count and the string loop against its function. |
| LegacyLoad.LegacyWorld.LoadIoNames | src/legacy_world.c:900-964 | Skips the sprite and misc fields, then reads both file names: success exactly when both path reads succeed, and each name is the one read (the output name only once it is reached). |
| LegacyLoad.LegacyWorld.LoadVlayer | src/legacy_world.c:989-1003 | The vlayer's size, chars and colors. |
| LegacyLoad.LegacyWorld.LoadSfx | src/legacy_world.c:1020-1027 | The SFX loop against its function. On success every effect is terminated. |
| LegacyLoad.LegacyWorld.LoadSfxSection | src/legacy_world.c:1009-1033 | The section equals `SfxSectionAt`: custom SFX are on exactly when the first board count is 0. Otherwise the count is that byte and the effects are untouched; when on, the effects are the SFX table read and the real count follows it. Effects read whole are terminated. |
| LegacyLoad.LegacyWorld.LoadBoards | src/legacy_world.c:1055-1074 | One board per table entry, loaded from its offset and size, with the global robot linked. |
| LegacyLoad.LegacyWorld.LoadBoardNames | src/legacy_world.c:1087-1101 | The board-name loop against its function. |
| LegacyLoad.LegacyWorld.LoadBoardList | src/legacy_world.c:1035-1101 | The boards and the global robot equal `BoardListAt`: the table past the skipped names, each board through the codec with the global robot rebound, the global robot from its position marked used, and the names read last. There is one board per count, and every board links the global robot and has a terminated name. |
| LegacyLoad.LegacyWorld.LoadWorldInfo | src/legacy_world.c:739-1003 | The new state equals `WorldInfoAt` of the old state: success exactly when every read that can fail succeeds, and then the world holds its status names and, for a savegame, its saved state, with the cursor at its end. On success the status names are terminated; for a savegame the paths are shorter than MAX_PATH, the counter count matches the list, and no reserved name was inserted. |
| LegacyLoad.LegacyWorld.LoadWorld | src/legacy_world.c:708-1117 | A world takes the given version, name and board 0. A savegame takes its version from bytes 5..6 and its current board from byte 7, and keeps its name. Success is exactly `WorldInfoAt` and then `BoardSectionAt` reading without a failure, and then the world holds both. On success the status names are terminated, the global robot is used, every board links it, there is one board per count, and the effects are terminated when custom SFX are on. For a savegame the paths are shorter than MAX_PATH, the counter count matches the list, and no reserved counter was inserted. |
| LegacyLoad.LegacyWorld.LoadSfxEntry | src/legacy_world.c:1022-1026 | One effect into its slot against `SfxEntryAt`: a short read fails after copying what arrived, a whole effect gets the slot's last byte cleared, and a length running past the end of the effects table writes nothing and stops the load. |
| LegacyLoad.LegacyWorld.LoadTableAndBoards | src/legacy_world.c:1042-1074 | Past the skipped names, the table is `BoardTableAt`, the boards are `LoadedBoards` of it, and the cursor is where the board loop leaves it. |
| LegacyLoad.LegacyWorld.LoadGlobalRobotAndNames | src/legacy_world.c:1079-1101 | The global robot is the codec's robot at its position, marked used, and the board names are the name loop's, read back at the name table. |
| LegacyLoad.LegacyWorld.LoadBoardSection | src/legacy_world.c:1006-1101 | The new state equals `BoardSectionAt` of the old state: success exactly when the SFX section reads whole. On success the section's invariants hold. |
| LegacyLoad.LegacyWorld.LoadSaveState | src/legacy_world.c:860-1003 | The counters, strings, file names and vlayer equal `SavedStateAt`. The counter count matches the list and no reserved name is inserted; on success both paths are shorter than MAX_PATH. |
| LegacyLoad.LegacyWorld.LoadStringsAndFiles | src/legacy_world.c:882-1003 | The strings, file names and vlayer equal `StringsAndFilesAt`; on success both paths are shorter than MAX_PATH and the cursor is at its end. |
| LegacyLoad.LegacyWorld.LoadSavegameInfo | src/legacy_world.c:768-1003 | The savegame part equals `SavegameInfoAt`: success exactly when the globals, the path and the saved state read whole, and then the paths are bounded, the counter count matches the list, and no reserved name is inserted. |
| LegacyLoad.LegacyWorld.LoadBoardSectionAfterInfo | src/legacy_world.c:1006-1101 | The board section as `LoadBoardSection` states it, leaving in place whether the world holds the world info and whether its invariants hold. |
| LegacyLoad.LegacyWorld.LoadSections | src/legacy_world.c:739-1101 | Success is exactly `WorldInfoAt`, then `BoardSectionAt` from where it ends, reading without a failure; then the world holds both and every loaded invariant holds. |
| LegacyLoad.ReadBoardName | src/legacy_world.c:1091-1100 | One board name against `NameRead`: 25 bytes over the old name, the first byte cleared on a failed read, the last byte always cleared. |
| LegacyLoad.SeekedTo | src/legacy_world.c:1044 | `fseek` leaves the stream at its target, or where it was when the target is negative. |
| LegacyLoad.HeaderEnd | src/legacy_world.c:723-735 | The opening reads end past byte 7 of a savegame, or at byte 29 of a world. |
| LegacyLoad.StringsAndFilesAt | src/legacy_world.c:882-1003 | Read whole, the input path is shorter than MAX_PATH and the reading moves forward. |
| LegacyLoad.SavedStateAt | src/legacy_world.c:860-1003 | Read whole, the saved state ends at or after where it starts. |
| LegacyLoad.SavegameInfoAt | src/legacy_world.c:768-1003 | Read whole, the savegame part moves forward, its saved state is read whole, and the module path is shorter than MAX_PATH. |
| LegacyLoad.WorldInfoAt | src/legacy_world.c:739-1003 | Read whole, the status names are six 15-byte names. There is a savegame part exactly for a savegame. |
| LegacyLoad.SfxSectionAt | src/legacy_world.c:1009-1033 | Custom SFX are on exactly when the first count byte is 0. Otherwise the effects are kept and the count is that byte; when on and read whole, the SFX table was loaded. |
| LegacyLoad.LoadedBoards | src/legacy_world.c:1055-1074 | Board k comes from the codec at entry k's offset and size, rebound to the global robot. |
| LegacyLoad.BoardListAt | src/legacy_world.c:1035-1101 | A list of n boards has n boards (none when n is not positive), and its global robot is used. |
| LegacyLoad.BoardListInvariants | src/legacy_world.c:1061-1101 | Every board of the list shares the global robot and has a NUL-terminated name. |
| LegacyLoad.BoardSectionAt | src/legacy_world.c:1006-1101 | The section keeps the 3450-byte SFX table size (50 effects of 69 bytes). |
| LegacyLoad.BoardSectionInvariants | src/legacy_world.c:1006-1101 | Custom effects read whole end in a NUL, and every board shares the global robot and has a NUL-terminated name. |
| LegacyLoad.WorldInfoInvariants | src/legacy_world.c:739-1003 | A world info read whole has terminated status names and, in a savegame, bounded paths, a counter count matching the list, and no reserved name. |
| LegacyLoad.SavedStateInvariants | src/legacy_world.c:860-880 | The counter count of a saved state is the list length, or negative over an empty list, and no reserved name is in the list. |
| LegacyLoad.StatusNameEnds | src/legacy_world.c:763-766 | After the terminator is written, each of the six status names ends in a NUL. |

## Left out

- File I/O is not modelled. A file is its contents (`Option<seq<int>>`), with `None` for a missing or
  non-regular file. `stat` and `fopen` are folded into that.
- `save_mzm` and `save_mzm_string` are not modelled. They only wrap `CalculateSize` and `SaveCommon`
  with a file write or a string allocation.
- Saving robots into the zip archive is not modelled. `save_robot`, `zip_open_mem_write` and
  `zip_close` are not part of this model, so `SaveCommon` returns the table position and robot numbers,
  not the final zip size. `SavedArchive` stands for the archive layout they produce.
- The zip archive, the robot codecs (`legacy_load_robot_calculate_size`, `legacy_load_robot_from_memory`,
  `load_robot`), `save_robot_calculate_size` and `zip_bound_total_header_usage` are parameters.
- The memfile and stdio internals are not part of this model. `MemFiles` and `CFiles` model their
  interfaces as the core uses them.
- `get_id_char` and `get_id_color` are not modelled. They arrive as the board's displayed chars and
  colors.
- `save_magic` and `world_magic` are parameters (`Magics`).
- `legacy_load_board_allocate` and `legacy_load_robot` are parameters (`Codecs`).
- `find_free_robot` is not in the source files modelled here. `FreeSlot` takes the first free slot at
  index 1 or above in a table of fixed capacity.
- `add_robot_name_entry` is modelled as an append, not a sorted insert.
- `compat_xpos` and `compat_ypos` are not modelled. They always equal `xpos` and `ypos`.
- `clear_sensor_id` and `clear_scroll_id` are left out, because the model has no sensor or scroll lists.
- `create_blank_robot_program`, `clear_robot` and memory release are left out.
- `prepare_robot_bytecode` under `CONFIG_DEBYTECODE` is left out.
- `optimize_null_objects` and `store_board_to_extram` are left out.
- Level bytes are read as unsigned. With a signed `char`, ids 128..255 would escape the under-id wipe,
  and robot params 128..255 would be negative in `clear_robot_id`.
- The board's six level arrays are one `array<Cell>`. The overlay chars and colors, and the vlayer
  chars and colors, are each one `array<Glyph>`.
- `error_message`, error suppression and the error count are left out. `err_robots` returns 0 like a
  success, so the model gives both the same result.
- The loading meter and the screen calls are left out: `set_rgb`, `set_color_intensity`,
  `set_screen_mode`, `smzx_palette_loaded` and `ec_mem_load_set`.
- The charset, id blocks and sprites are read as blocks of the right size. Their contents are not
  modelled.
- LegacyLoad.LegacyWorld.LoadSaveGlobals: the keys, effect durations, saved player positions and
  boards, and the scroll and message colours (`src/legacy_world.c:770-797`) are read past by byte
  count and not stored. Only the playing module's path is stored.
- LegacyLoad.LegacyWorld.LoadWorldInfo: the world scalars and palette (`src/legacy_world.c:812-837`),
  and in a savegame the intensities, fade, restart position and under-player fields (845-856), are
  skipped by byte count and not stored.
- LegacyLoad.LegacyWorld.LoadIoNames: the sprite, collision and misc fields (`src/legacy_world.c:900-939`)
  and the two temporary file positions (952, 964) are skipped by byte count. Only the input and output
  file names are stored.
- LegacyLoad.LegacyWorld.LoadVlayer: the screen mode, its palette and the command count
  (`src/legacy_world.c:966-986`) are skipped by byte count, and the vlayer width and height (990-991)
  are not stored. The vlayer size, chars and colors are stored.
- `sort_counter_list` and `sort_string_list` are left out.
- `decrypt_backup` file copying and the `.locked` / `.LCK` backup names are not modelled. They are the
  `backupOk` and `writable` flags of `Decrypt`.
- `confirm`, `has_video_initialized` and `get_config` are inputs of `ValidateWithRetry`.
- LegacyValidate.CheckBoardCount: the SFX table check is stated as a walk over the 50 length-prefixed
  records. `SfxWalkOnRecords` and `BoardCountAfterWalk` relate that walk to the record layout, but no
  single lemma states the whole board-count check in terms of the records.
- LegacyValidate.ValidateWithRetry: it validates with the intended board-table check, not the check as
  written.
- The MZM2 header is read as 16 bytes, as the code does (`src/mzm.c:388-397`).
- MzmRobotLoad.PlaceRobot: it runs the corrected placement, where the player check comes before every
  branch. As written (`src/mzm.c:741-746`, `783-789`), a dummy robot or a robot with no free slot
  overwrites a player cell; the model keeps the player. The second row of "## Findings" records this, and
  `PlaceAgrees` shows the two agree on every other cell.
- MzmRobotLoad.LoadRobot: its placement step is the corrected placement of `PlaceRobot`, so it keeps a
  player cell the code as written overwrites (second row of "## Findings").
- MzmRobotLoad.LoadRobotList: the loop equals the robot phase with the corrected placement, not the
  placement as written (second row of "## Findings").
- MzmRobotLoad.LoadRobots: the whole robot phase uses the corrected placement (second row of
  "## Findings").
- MzmLoad.LoadOntoBoard: its robot phase uses the corrected placement, so a player cell is never
  overwritten (second row of "## Findings").
- MzmLoad.LoadAccepted: a board load runs the corrected robot phase (second row of "## Findings").
- MzmLoad.LoadCommon: the size check computes `width * height * stride` without 32-bit wrap-around, so
  it rejects the wrapping headers the code as written accepts (first row of "## Findings",
  `OverflowAccepted`). A board load runs the corrected robot phase (second row).
- MzmLoad.LoadMzm: the size check and the robot phase of `LoadCommon`, corrected as that line says.
- MzmLoad.LoadMzmMemory: the size check and the robot phase of `LoadCommon`, corrected as that line says.
- MzmTiles.Note: at most 256 robot markers are kept. The code as written keeps counting and writes past
  `robot_x_locations[256]` (`src/mzm.c:522-526`), which is undefined behaviour (third row of
  "## Findings").
- MzmTiles.Cap: the marker list is capped at the 256 entries of the location arrays, as `Note` says.
- MzmBoard.Board.SetupOverlay: allocating and clearing the overlay is not modelled (`setup_overlay` is
  not part of this model). An overlay that is off keeps its earlier contents.
- MzmSave.SaveLayerMode: saving the overlay of a board whose overlay was off saves the overlay's earlier
  contents, not the cleared overlay `setup_overlay` would give.
- MzmGlyphs.LoadToOverlay: on a board whose overlay was off, the glyphs outside the loaded rectangle
  keep their earlier contents, not the cleared overlay.
- MzmGlyphs.LoadGlyphs: the origin must have `0 <= startX` below the destination width and
  `0 <= startY`. A negative origin makes the source write before the destination. A column at or past
  the width gives a negative clipped width, so the file cursor runs past the row. The callers clamp the
  origin. An origin row at or past the height is allowed, and the load changes nothing.
- MzmGlyphs.LoadToOverlay: the same origin bounds as `LoadGlyphs`, against the board's width.
- MzmGlyphs.LoadToVlayer: the same origin bounds as `LoadGlyphs`, against the vlayer's width.
- MzmLoad.LoadOntoBoard: the same origin bounds as `LoadGlyphs`. Here a column at or past the width
  makes the skip loop at `src/mzm.c:574-584` read past the file row.
- MzmLoad.LoadAccepted: the origin bounds of `LoadOntoBoard` and `LoadGlyphs`, for the mode's
  destination.
- MzmLoad.LoadCommon: the origin bounds of `LoadAccepted`.
- MzmLoad.LoadMzm: the origin bounds of `LoadAccepted`.
- MzmLoad.LoadMzmMemory: the origin bounds of `LoadAccepted`.
- LegacyLoad.LegacyWorld.LoadCounter: the source reads the name into `name_buffer`, a static array of
  `ROBOT_MAX_TR` bytes (`src/legacy_world.c:64`). A longer name overruns it, because the validator
  rejects only negative lengths. The model reads the name whole. `ROBOT_MAX_TR` is not part of this
  model.
- LegacyLoad.LoadString: the same `name_buffer` overrun as `LoadCounter`. The model reads the name
  whole.
- LegacyLoad.LegacyWorld.LoadSfxEntry: an effect whose length runs past the end of `custom_sfx` makes
  the source write past the array. The model writes nothing and stops the load there.

## Findings

| source | as written | input that shows it | evidently intended | confidence | as-written member | corrected member |
|---|---|---|---|---|---|---|
| src/mzm.c:443-454 | `expected_data_size = (width * height) * stride` is computed in 32-bit `int` and wraps | An `MZM2` header of width = height = 32768 in a 16-byte file: the size wraps to -2^31, so `file_length - data_start < expected_data_size` is false and the header is accepted | Reject any header whose payload does not fit in the file | not executed | MzmFormat.OverflowAccepted | MzmFormat.AcceptedPayloadFits |
| src/mzm.c:733-789 | The player check guards only the branch with a free slot. A dummy robot, or a robot with no free slot, overwrites the cell whatever it holds | A robot marker whose board cell holds the player, loaded as a dummy (savegame MZM outside a game), or loaded when every robot slot is taken | Never change the player cell, as the tile phase does at line 550 | not executed | MzmRobots.DummyOverwritesPlayer | MzmLoad.LoadKeepsPlayer |
| src/mzm.c:507-526 | `robot_x_locations[256]` is indexed by the count of robot records, which is not bounded by 256 | A 17x16 `MZM2` file of robot cells (272 robot records) with board storage, which passes the size check | Keep at most 256 robot markers, the size of the location arrays | not executed | MzmTiles.MarkerOverflow | MzmTiles.TileRowsMarkers |
| src/legacy_world.c:631-663 | The board count is read with `fgetc`, which gives EOF (-1) at the end of the file. The span check `-33 == -1 * 33` then passes | A 4230-byte world: title, protection 0, magic `M\x02\x11`, zero palette, and nothing after the palette | Reject a file whose board names and table do not lie inside it | not executed | LegacyValidate.TruncatedWorldValidates | LegacyValidate.CheckedWorldSuccess |
