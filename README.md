# cops in Dafny: terminal displays, their rendering and a terminal emulator

cops ("console operations") composes images for a character terminal.

- A **display** is three aligned planes over one rectangle of cells:
  - a text plane, the **textile**, holding one string per cell;
  - a foreground colour plane;
  - a background colour plane.
- Displays are filled, cleared, cut into shared sub-displays and drawn onto each other.
- They are **rendered** to ANSI escape sequences. A **cursor** tracks how much of the terminal's state is known. Rendering over a back display skips the cells that did not change. A **colour model** (monochrome, 8, 16, 256 or 24-bit colour) chooses each SGR sequence.
- **vtio** runs the other way. It is an ANSI event handler that keeps a display up to date. It handles printing with line wrap and scrolling, cursor motion, erasing a line and SGR colours.
- **text** measures and writes plain text. **braille** and **bitmap** turn one-bit images into Braille Pattern glyphs.
- **rectangle** and **geometry** centre, grow and stretch rectangles.
- **earthgif** fits an image into the terminal, keeping its aspect ratio.

## How the model is built

Pure code is modelled with datatypes and functions. Code that updates things in place is modelled with classes.

- **Cursor, colour models, ANSI encoders.** The byte-buffer functions (`func(buf []byte, …) []byte`) are Dafny functions on `seq<byte>`. Strings become bytes through a UTF-8 encoder, `Utf8.Encode`, and `strconv.Itoa` is `Decimal.Itoa`. Each encoder is paired with vtio's SGR decoder through round-trip lemmas.
- **Textile and image planes.**
  - Go's `*textile.Textile` and `*image.RGBA` are thin headers over a shared slice. Both are modelled by one generic class, `Textile.Textile<T>`, over an `array<T>`. It has a start offset, a stride and a rectangle, and sub-views share the array.
  - Fill, Set, SubText/SubDisplay and Draw are methods over that array, with loop invariants.
  - Each method's postcondition states the new contents cell by cell as a function of the old contents.
- **Display.Draw** states the three colour passes of display.go:107-109 exactly, including when the source and destination are the same display.
- **vtio.**
  - The handler is the class `Vtio.Handler`. Each event method is proved to produce the state that a specification function `Vtio.Step` gives.
  - The screen is tracked as a ghost `Grid`, a total map from points to cells, through the predicate `Shows`.
  - Resizing, putting a rune and flushing the buffer each have a grid-level specification (`ResizeG`, `PutG`, `FlushG`). Lemmas connect them.
  - Scrolling follows the code as written: `ScrollAsWrittenG` is display.Draw of the display onto itself followed by the clear, with each pass reading what the previous one left. `PutG`, `FlushG`, `Step` and the handler's methods are built on it. The scroll that moves every plane up exactly, `ScrollG`, is the corrected half of a finding.
- **Cursor.** `Cursor.Moved` and `Cursor.Go` send the zero-based seek from a lost position, as written. `Cursor.LostSeek` is the one-based seek of the corrected half.
- **Bitmap.** `BitAt` and `BitSet` index from the absolute coordinates, as written, and require the index to lie in the byte slice. `BitAtFromMin` and `BitSetFromMin` index from Rect.Min, as the corrected half.
- **The colour table.** The 256 ANSI colours (`display.Colors`) are threaded through as a parameter `colors: ColorTable`, a sequence of 256 colours.

## Model

| member | source | states |
|---|---|---|
| Internal.Clip | internal/clip.go:9-27 | the clipped rectangle is normalised; a point lies in it exactly when it lies in r, in dst, in src shifted to r's origin and (when given) in the shifted mask; sp and mp move by the same amount as r.min; the mask rectangle is kept |
| Internal.ClipRect | internal/clip.go:10-15 | the rectangle part of Clip alone: the same point-membership characterisation |
| Internal.InShifted | internal/clip.go:12 | a point lies in `src.Add(orig.Sub(sp))` exactly when shifting it back lands in src |
| Internal.ClipIdempotent | internal/clip.go:9-27 | clipping an already clipped rectangle, point and mask changes nothing |
| Internal.ClipAgainRect | internal/clip.go:9-27 | re-clipping keeps the clipped rectangle |
| Internal.ClipAgainPoint | internal/clip.go:9-27 | re-clipping keeps exactly the same points |
| Internal.ClipKeepsPoints | internal/clip.go:16-20 | when r.min does not move, sp and the mask point are returned unchanged (the early return) |
| Color.Prefix | display/palettes.go:22-30 | the palette built by appending the first n colours is exactly the first n entries of the table |
| Color.IndexUpToMeaning | display/palettes.go:33-35 | the index map's keys are exactly the colours seen; each maps to an index holding that colour; a colour listed twice maps to its last index |
| Color.BuildIndex | display/palettes.go:32-35 | the reverse colour index: keys are the 256 colours, each mapped to the last index that holds it |
| Color.InitDisplayTables | display/palettes.go:21-36 | Palette3, Palette4 and Palette8 are the first 8, 16 and 256 colours, and colorIndex is the reverse index |
| Color.InitRootPalettes | palettes.go:9-19 | the root package's three palettes have 8, 16 and 256 entries and are prefixes of each other and of the colour table |
| Color.PalettesNested | palettes.go:9-19 | Palette3 is a prefix of Palette4, which is a prefix of Palette8 |
| Color.SqDiff | display/ansi.go:37 | one channel's term of the sum `color.Palette.Index` minimises: zero exactly for equal channels, and small enough that the four-term sum never wraps a uint32 |
| Color.Dist | display/ansi.go:37 | the distance `color.Palette.Index` ranks entries by is zero exactly for equal colours, and always below its starting best sum 2^32 - 1 |
| Color.Nearest | display/ansi.go:36-44 | the palette index chosen for a colour has minimal distance to it, and it is the first such index |
| Color.NearestExact | display/ansi.go:36-44 | a colour that is in the palette is mapped to an entry equal to it, at or before its own position |
| Color.NearestRoundsPerChannel | display/ansi.go:37 | a close call that the 16-bit widening and the shift decide: from transparent black, (1,1,1,1) is nearer than (2,0,0,0) |
| Ansi.NoColor | display/ansi.go:8-10 | the monochrome encoder leaves the buffer unchanged |
| Ansi.FgIndex | display/ansi.go:46-61 | the foreground index encoder only appends to the buffer, and appends something |
| Ansi.BgIndex | display/ansi.go:63-78 | the background index encoder only appends to the buffer, and appends something |
| Ansi.Color24 | display/ansi.go:94-106 | the 24-bit encoder only appends to the buffer |
| Ansi.WideDown | display/ansi.go:95-103 | a channel widened to 16 bits by `RGBA()` and divided by 256 gives back the 8-bit channel |
| Ansi.FgPalette | display/ansi.go:12-39 | the paletted foreground encoder only appends to the buffer |
| Ansi.BgPalette | display/ansi.go:12-44 | the paletted background encoder only appends to the buffer |
| Ansi.Fg24 | display/ansi.go:80-85 | the 24-bit foreground encoder only appends to the buffer |
| Ansi.Bg24 | display/ansi.go:87-92 | the 24-bit background encoder only appends to the buffer |
| Ansi.IndexCodes | display/ansi.go:46-78 | each index encoder emits `ESC [ codes m`, where the codes are 30+i, 90-8+i or 38;5;i (40+i, 100-8+i or 48;5;i for the background) |
| Ansi.Color24Codes | display/ansi.go:94-106 | `renderColor24` emits `ESC [ 38;2;r;g;b m` (or 48;…) with the colour's channels |
| ColorModel.Foreground | display/model.go:32-47 | a model's foreground encoder only appends, and appends nothing exactly for Model0 |
| ColorModel.Background | display/model.go:32-47 | a model's background encoder only appends, and appends nothing exactly for Model0 |
| ColorModel.Render | display/model.go:20-30 | the cursor afterwards holds the requested colours and the same position; the buffer only grows; nothing is written when both colours are already current; Model0 never writes; any other model writes exactly when a colour changes |
| ColorModel.RenderOrder | display/model.go:21-28 | the foreground sequence comes first and is written only on a foreground change; the background sequence follows and is written only on a background change |
| ColorModel.RenderTwice | display/model.go:20-30 | rendering the same colours a second time writes nothing and leaves the cursor as it is |
| ColorModel.Model3Foreground | display/model.go:36-37 | Model3 writes a single SGR code from 30 to 37 for the foreground |
| ColorModel.Model3Background | display/model.go:36-37 | Model3 writes a single SGR code from 40 to 47 for the background |
| ColorModel.Model4Foreground | display/model.go:39-40 | Model4 writes the foreground as a palette index below 16 |
| Cursor.Hide | display/cursor.go:52-54 | appends `ESC [?25l` and keeps the cursor |
| Cursor.Show | display/cursor.go:57-59 | appends `ESC [?25h` and keeps the cursor |
| Cursor.Clear | display/cursor.go:62-70 | appends `ESC [2J`; the position becomes Lost and the colours are kept |
| Cursor.Reset | display/cursor.go:73-82 | writes nothing when already white on black; otherwise appends `ESC [m` and the cursor becomes white on black at the same position |
| Cursor.Home | display/cursor.go:85-88 | appends `ESC [H` and moves the cursor to the origin, keeping its colours |
| Cursor.Repeat | display/cursor.go:145-148 | n copies of one byte (none for negative n) |
| Cursor.Go | display/cursor.go:94-170 | the loop that writes one newline per row moved down computes exactly the motion `Moved` specifies, which from a lost position is the zero-based seek as written |
| Cursor.Moved | display/cursor.go:94-170 | the motion Go makes, as a function: from a lost position the zero-based seek as written; otherwise the carriage return for an unknown column, reset then CR LF (or CR) toward column 0, CR and one LF per row down, `ESC [ n A` up, then `ESC [ n D` or `ESC [ n C`; the cursor always ends at the target |
| Cursor.WriteGlyph | display/cursor.go:177-188 | appends the string's UTF-8 bytes; the column advances by one for a single rune and becomes unknown (-1) otherwise; row and colours are kept |
| Cursor.MovedEndsAtTarget | display/cursor.go:94-170 | after any motion the cursor is at the target; the buffer only grows; the colours are unchanged or reset to white on black |
| Cursor.MovedFromLost | display/cursor.go:95-107 | (as written) from a lost position the motion is one absolute seek `ESC [ y;x H` with the zero-based coordinates, and the cursor then believes it stands at the target |
| Cursor.LostSeekAsWrittenParams | display/cursor.go:100-104 | the seek as written sends the zero-based coordinates `ESC [ y;x H` |
| Cursor.LostSeekAsWritten | display/cursor.go:100-104 | (as written) the absolute seek `ESC [ y ; x H` with the zero-based coordinates, at least six bytes |
| Cursor.LostSeekParams | display/cursor.go:100-104 | (corrected) the seek carries the one-based coordinates `ESC [ y+1;x+1 H` |
| Cursor.LostSeek | display/cursor.go:100-104 | (corrected) the one-based seek, which is the as-written seek of the point one right and one down |
| Cursor.MovedNowhere | display/cursor.go:94-170 | moving to the known current position writes nothing |
| Cursor.MovedNextLine | display/cursor.go:121-125 | moving to column 0 of the next row resets the colours and writes `\r\n` |
| Cursor.MovedUp | display/cursor.go:151-166 | moving up writes `ESC [ n A` for the row difference, followed by the horizontal motion |
| Cursor.MovedAlongRow | display/cursor.go:158-166 | moving along the row writes `ESC [ n D` to the left or `ESC [ n C` to the right, with n the column difference |
| Decimal.DigitChar | display/cursor.go:101 | a digit below ten becomes the character with that value |
| Decimal.Digits | display/cursor.go:101 | a natural prints as at least one decimal digit, exactly one for values below ten |
| Decimal.Itoa | display/ansi.go:49 | `strconv.Itoa` produces digits for non-negatives and a leading minus sign for negatives |
| Decimal.ValueDigits | display/ansi.go:49 | reading back the printed digits gives the number |
| Decimal.ValueItoa | display/cursor.go:101-103 | reading back `Itoa(n)` gives n for every natural n |
| Utf8.EncodeRune | display/cursor.go:178 | a rune encodes to 1 to 4 bytes, and to one byte exactly when it is ASCII |
| Utf8.Encode | display/cursor.go:178 | a string encodes to at least as many bytes as it has runes, and to none exactly when it is empty |
| Utf8.DecodeRune | vtio/vtio.go:86 | decoding consumes between 1 and 4 bytes of a non-empty input |
| Utf8.Decode | vtio/vtio.go:86 | `range string(buf)` yields at most one rune per byte, and none exactly for no bytes |
| Utf8.DecodeEncodeRune | vtio/vtio.go:86 | decoding an encoded rune returns that rune and its encoded length, whatever follows |
| Utf8.Decode2 | vtio/vtio.go:86 | two-byte runes decode back |
| Utf8.Decode3 | vtio/vtio.go:86 | three-byte runes decode back |
| Utf8.Decode4 | vtio/vtio.go:86 | four-byte runes decode back |
| Utf8.EncodeAppend | display/cursor.go:178 | encoding distributes over concatenation |
| Utf8.DecodeEncode | vtio/vtio.go:86 | decoding the encoding of any string gives the string back |
| Utf8.EncodeAscii | display/cursor.go:178 | ASCII strings encode byte for byte |
| Textile.Textile.IndexInRange | textile/textile.go:99-101 | the offset of every point inside the rectangle lies inside the storage |
| Textile.Textile.StringsOffset | textile/textile.go:99-101 | the offset (y-Min.Y)*Stride + (x-Min.X): 0 at Rect.Min, the column distance on the first row |
| Textile.Textile.IndexInjective | textile/textile.go:99-101 | distinct points of the rectangle have distinct offsets |
| Textile.Textile.IndexOrdered | textile/textile.go:99-101 | offsets increase in row-major order |
| Textile.Textile.NextRowAfter | textile/textile.go:99-101 | every cell of the next row lies after every cell of this row |
| Textile.Textile.At | textile/textile.go:66-72 | outside the rectangle the empty value; inside it, the stored cell at the point's offset |
| Textile.Textile.New | textile/textile.go:19-28 | a fresh w*h storage with stride w, every cell empty |
| Textile.Textile.View | textile/textile.go:89-94 | a view with the parent's storage and stride over a sub-rectangle, with the same offsets for every point |
| Textile.Textile.Set | textile/textile.go:75-81 | the cell at the point is overwritten when it is inside the rectangle; every other storage cell is unchanged |
| Textile.Textile.Fill | textile/textile.go:56-63 | every cell of the rectangle holds the value, and every storage cell that no point of the rectangle occupies keeps its value (so a parent sharing the storage keeps what lies outside the view) |
| Textile.Textile.SubText | textile/textile.go:84-95 | the region is the intersection; an empty region has empty storage; otherwise it shares the parent's storage and reads the same strings |
| Textile.KeptOutsideView | textile/textile.go:89-94 | when a view keeps the storage outside itself, its parent reads as before everywhere outside the view |
| Textile.SharedAt | textile/textile.go:89-94 | a sub-textile reads the parent's cells inside its own rectangle |
| Textile.SnapNow | textile/textile.go:66-72 | reading a snapshot of the storage taken now is reading the textile |
| Textile.CopiedAnyUnder | textile/textile.go:44-52 | when every cell is copied, what the destination held before does not matter |
| Textile.ToResult | textile/textile.go:44-52 | "kept outside" and "copied inside" together give the packaged draw result |
| Textile.FromResult | textile/textile.go:44-52 | the packaged draw result gives back "kept outside" and "copied inside" |
| Textile.ResultChain | display/display.go:107-109 | two draw passes in a row over the same region compose into one |
| Textile.KeptSnap | textile/textile.go:44-52 | cells outside the drawn region read as before the draw |
| Textile.KeptAfter | textile/textile.go:44-52 | "kept outside" carries over between snapshots that agree outside the region |
| Textile.Copy | textile/textile.go:44-52 | the cell-copy engine: cells outside the region are kept; inside it each cell gets the source cell at the same offset from sp (skipping empty strings when asked) whenever the source is not overwritten before it is read |
| Textile.CopyRows | textile/textile.go:45-52 | the row loop of Copy establishes the same guarantee row by row |
| Textile.CopyRow | textile/textile.go:46-51 | one row is copied and every other row is untouched |
| Textile.CopyCell | textile/textile.go:47-50 | one cell is copied (or skipped for an empty string) and nothing else changes |
| Textile.ReadIsSnap | textile/textile.go:47 | while the copy reads ahead of where it writes, a read returns the source as it was before the draw |
| Textile.Draw | textile/textile.go:38-53 | text outside the clipped rectangle is kept; inside it, whenever the source is not overwritten before it is read, each non-empty source string replaces the destination's and empty ones leave it |
| Textile.SelfCopy | textile/textile.go:44-52 | the copy loop on one textile: each cell ends as SelfDrawn says, reading cells that the loop may already have written |
| Textile.SelfCopyCell | textile/textile.go:47-50 | one cell of that loop: the cells before it are drawn, all others still read their old storage |
| Textile.SelfDrawnAhead | textile/textile.go:44-52 | when every read is at or after the write position, the self-copy equals the copy read from the old storage |
| Sheet.Draw | sheet/sheet.go:21-28 | outside the overlap of the two sheets nothing changes; inside it, whenever the source is not overwritten before it is read, every cell takes the source's string, empty included |
| Display.Display.At | display/display.go:115-120 | a point outside the display reads as a blank cell |
| Display.Display.New | display/display.go:23-30 | three fresh planes over the rectangle, every cell blank |
| Display.Display.Of | display/display.go:54-59 | the display made of the three given planes over the rectangle |
| Display.Display.Set | display/display.go:80-84 | the cell at the point (when inside) holds the text and colours; every other cell is unchanged, and so is every storage cell of the three planes outside the display |
| Display.Display.Fill | display/display.go:64-71 | every cell in the intersection holds the given cell; all others are unchanged, and so is every storage cell of the three planes outside the display |
| Display.Display.FillRows | display/display.go:66-70 | the row loop of Fill over a rectangle inside the display, with the same storage frame |
| Display.Display.FillRow | display/display.go:67-69 | one row of Fill; other rows and the storage outside the display are unchanged |
| Display.Display.Clear | display/display.go:74-76 | every cell in the intersection becomes blank (empty text, transparent colours); all others are unchanged, and so is every storage cell outside the display |
| Display.Display.SubDisplay | display/display.go:52-60 | the sub-display's rectangle is the intersection; it shares the parent's planes and reads the same cells |
| Display.WithinAt | display/display.go:52-60 | a sharing sub-display reads its parent's cells inside its rectangle |
| Display.KeptOutsideWindow | display/display.go:52-60 | when a window keeps the storage outside itself, its parent reads as before everywhere outside the window |
| Display.Draw | display/display.go:102-111 | after clipping, cells outside the region are kept; inside it the background takes the source background; the foreground takes the source background and then the source foreground; the text takes the non-empty source strings. For a self-draw, each pass reads the planes as the previous passes left them |
| Display.DrawClipped | display/display.go:104-110 | the same guarantee for a region that is already clipped |
| Display.DrawnFrom | display/display.go:107-110 | the per-plane results of the three passes and of the text draw add up to the display-level guarantee |
| Display.DrawColors | display/display.go:107-109 | the three colour passes: for distinct displays, a copy of the source planes; for the same display, the pass-by-pass result |
| Display.SelfPass1 | display/display.go:107 | after the first pass of a self-draw, the background is the shifted old background |
| Display.BgAfterPass1 | display/display.go:107 | the background of a self-draw after the first pass: inside the region the old background at the source offset, outside it the old background; with no offset the background is unchanged |
| Display.SelfPass2 | display/display.go:108 | after the second pass, the foreground is the shifted background as the first pass left it |
| Display.FgAfterPass2 | display/display.go:108 | the foreground of a self-draw after the second pass: inside the region the background the first pass left at the source offset, outside it the old foreground; with no offset the foreground inside the region becomes the old background |
| Display.SelfPass3 | display/display.go:109 | the third pass shifts that foreground once more |
| Display.SelfFgAt | display/display.go:107-109 | the self-drawn foreground cell by cell: kept outside the region; inside it, the second pass's cell at the source offset |
| Renderer.Glyph | display/display.go:142-147 | an empty cell renders as a space; any other text renders as itself |
| Renderer.BackAt | display/display.go:115-119 | the back cell the comparison sees: none for a nil back display, since Go's nil display gives a background of another dynamic type than any front colour; otherwise the back display's cell |
| Renderer.Draw | display/display.go:151-153 | writing a cell appends at least one byte and leaves the cursor on the cell's row in the cell's colours |
| Renderer.Step | display/display.go:140-153 | a cell that looks the same as the back cell writes nothing; any other cell is written in full by Draw |
| Renderer.StepNoBack | display/display.go:141-150 | with no back display no cell is skipped: every cell is drawn and writes at least one byte |
| Renderer.StepDiffers | display/display.go:148-153 | a cell that differs from two back cells is written the same way over either |
| Renderer.RowFromStep | display/display.go:139-154 | a row renders as its first cell followed by the rest of the row |
| Renderer.RowFrom | display/display.go:140-153 | the reference definition of the inner loop: each cell from column x to Max.X in turn takes its Step against the back cell; the buffer never shrinks |
| Renderer.RowsFrom | display/display.go:138-156 | the reference definition of the outer loop: each row from y to Max.Y in turn is rendered by RowFrom from Min.X; the buffer never shrinks |
| Renderer.RowsFromStep | display/display.go:138-155 | the display renders as its first row followed by the remaining rows |
| Renderer.RenderOver | display/display.go:137-157 | the nested loops compute the row-by-row rendering function: a cell is skipped exactly when the back display exists and its cell looks the same; the cursor motion is `Cursor.Moved` as written (the zero-based seek from a lost position) |
| Renderer.RenderRow | display/display.go:139-154 | the inner loop computes the rendering of one row, with the same skipping rule and the same as-written motion |
| Renderer.Render | display/display.go:129-131 | rendering is rendering over a nil back display, so every cell is written; the motion is as written |
| Renderer.RowFromExtends | display/display.go:139-154 | rendering a row only appends to the buffer |
| Renderer.RowsFromExtends | display/display.go:137-157 | rendering only appends to the buffer |
| Renderer.RowFromSame | display/display.go:148-150 | a row whose cells all match the back display writes nothing and leaves the cursor |
| Renderer.RowsFromSame | display/display.go:148-150 | a display whose cells all match the back display writes nothing |
| Renderer.RenderOverItself | display/display.go:137-157 | rendering a display over itself writes nothing |
| Renderer.MultiRuneSteps | display/render_test.go:11-20 | the two cell steps of the multi-rune example, each with the bytes and cursor it leaves |
| Renderer.RowsFromMultiRune | display/render_test.go:11-20 | two multi-rune cells render as the glyph, `\r ESC [1C`, and the glyph again |
| Renderer.RenderMultiRuneCell | display/render_test.go:11-20 | the test's display, built and rendered, produces exactly those bytes |
| Renderer.BlankAndMultiRuneSteps | display/render_test.go:34-44 | the three cell steps of the blank/multi-rune/blank example over a blank back display |
| Renderer.RowsFromBlankAndMultiRune | display/render_test.go:34-44 | they render as a space, the glyph, `\r ESC [2C` and a space |
| Renderer.RenderBlankAndMultiRuneCellOver | display/render_test.go:34-44 | the test's front and back displays, built and rendered, produce exactly those bytes |
| Renderer.BlankAndMultiRuneFront | display/render_test.go:34-44 | the test's front: a blank, the multi-rune cell and a blank, white over transparent |
| Renderer.RenderBlankAndMultiRune | display/render_test.go:34-44 | that front rendered from Reset over a blank back gives the test's bytes |
| Renderer.RowsFromBlankAndMultiRuneAlone | display/render_test.go:22-32 | the same front with no back display renders as a space, the glyph, `\r ESC [2C` and a space |
| Renderer.RenderBlankAndMultiRuneCell | display/render_test.go:22-32 | the test's display, built and rendered with Render, produces exactly those bytes |
| Renderer.StepInPlace | display/display.go:140-153 | a one-rune cell where the cursor stands, in its colours, over a blank back cell writes only the rune and moves the cursor right |
| Renderer.StepNextLine | display/display.go:140-153 | a one-rune cell at column 0 of the next row, white on black, writes CR LF and the rune |
| Renderer.RowRest | display/display.go:139-154 | columns 1 and 2 of a three-rune row write their two runes |
| Renderer.RowBytes | display/display.go:139-154 | the bytes of the three runes of a row are the encoding of the row's text |
| Renderer.FirstRow | text/text_test.go:22-33 | the first row renders from Reset as its text, leaving the cursor past its end |
| Renderer.NextRowStart | display/display.go:140-153 | column 0 of the next row writes CR LF and its rune |
| Renderer.NextRow | text/text_test.go:22-33 | the next row renders as CR LF and its text, from the cursor past the end of the row above |
| Renderer.SecondRow | text/text_test.go:22-33 | the second and last row of a two-row front renders as CR LF and its text |
| Renderer.RowsFromEnd | display/display.go:138 | past the last row nothing more is written |
| Renderer.TwoRowBytes | text/text_test.go:22-33 | the bytes of two rows joined by CR LF are the encodings of the rows around the bytes CR LF |
| Renderer.RowText | text/text_test.go:22-33 | the three runes of one row of marks, in column order |
| Renderer.BothRowsShow | text/text_test.go:22-33 | both rows of a written front over a new blank back differ in every cell, so each cell is rendered |
| Renderer.RowsFromTwoRows | text/text_test.go:22-33 | a two-row front over a blank back renders from Reset as the first row, CR LF, the second row |
| Renderer.WrittenFront | text/text_test.go:22-33 | a new display of the string's bounds, filled white on black, with the string written in white: each cell holds its mark in white on black |
| Renderer.RenderTwoRows | display/display.go:129-157 | RenderOver from Reset with Model0 on such a front gives the two rows joined by CR LF |
| Renderer.RenderWritten | text/text_test.go:22-33 | writing a string whose marks cover a 3x2 bounds and rendering it over a blank back gives its two rows joined by CR LF |
| Renderer.ExampleMarks | text/text_test.go:22-33 | the marks of "abc\n123\n" cover its bounds with no space, and its rows read "abc" and "123" |
| Renderer.RenderTwoLines | text/text_test.go:22-33 | the test's scenario: "abc\n123\n" written and rendered over a blank back gives exactly `abc\r\n123` |
| Text.NextTab | text/text.go:27 | the next tab stop lies strictly right of x, at most 8 columns on, and is a multiple of 8 |
| Text.NextTabMonotone | text/text.go:50 | tab stops never move left as x grows |
| Text.Measure | text/text.go:19-37 | the measuring pass keeps its counters non-negative, the line count at least 1, and the height at most the line count |
| Text.MeasureStep | text/text.go:22-36 | one rune of Bounds's loop: newline goes to column 0 of the next line, tab to the next stop, any other rune takes a cell; the counters never shrink, and only a rune other than newline and tab can widen or heighten the box |
| Text.Bounds | text/text.go:19-39 | the loop computes the bounding rectangle: well formed and at the origin |
| Text.BoundsExamples | text/text_test.go:14-20 | the bounds of "", "1", "abc\n12", "ab\n123" and "abc\n123\n" |
| Text.TrailingNewline | text/text.go:23-25 | a trailing newline does not change the bounds |
| Text.InkOf | text/text.go:43-61 | the writing pass keeps its pen position non-negative |
| Text.InkStep | text/text.go:44-60 | one rune of Write's loop: newline goes to column 0 of the next line, carriage return changes nothing, tab goes to the next stop, space advances without a mark, any other rune is marked at the pen, which advances |
| Text.InkMarks | text/text.go:51-59 | every written mark lies at a non-negative position within the lines seen, and is not white space |
| Text.Paint | text/text.go:55-57 | setting one cell within the bounds adds one mark to the painted plane |
| Text.WriteRune | text/text.go:45-60 | one rune of the loop moves the pen and paints exactly as the writing pass specifies |
| Text.PlaceRune | text/text.go:54-58 | a printable rune is painted (text and foreground) when its point falls inside the bounds |
| Text.Write | text/text.go:42-62 | each cell holding a mark (shifted by bounds.min, inside the bounds and the display) gets the rune and the colour; every other cell and the whole background are unchanged, and so is every storage cell outside the display |
| Text.BoundsHoldsWrite | text/text.go:19-62 | everything Write marks lies inside Bounds of the same string |
| Text.InkWithinMeasure | text/text.go:19-62 | Write's pen and marks stay within Bounds's counters |
| Text.WriteExampleFirstLine | text/text_test.go:22-28 | writing "abc\n" marks a, b and c at the start of the first row and moves to the next line |
| Text.WriteExample | text/text_test.go:22-33 | writing "abc\n123\n" marks exactly a, b, c on row 0 and 1, 2, 3 on row 1 |
| Bitmap.Bitmap.New | bitmap/bitmap.go:17-27 | the stride is (w+7)/8 bytes, the storage has stride*h bytes, the palette is {off, on} and every bit is clear |
| Bitmap.Bitmap.BitAt | bitmap/bitmap.go:53-64 | (as written) off outside the rectangle; inside it, bit (y*Stride + x)&7 of byte y*Stride + x>>3 |
| Bitmap.Bitmap.At | bitmap/bitmap.go:30-35 | the palette's second colour where the bit is on and its first where it is off, so the first outside the rectangle |
| Bitmap.Bitmap.IndexInRange | bitmap/bitmap.go:58-60 | (corrected, offsets taken from Rect.Min) every pixel's byte lies inside the storage and its bit index is below 8 |
| Bitmap.Bitmap.IndexInjective | bitmap/bitmap.go:58-60 | (corrected) distinct pixels have distinct (byte, bit) positions |
| Bitmap.Bitmap.Updated | bitmap/bitmap.go:75-79 | updating one bit keeps the storage length |
| Bitmap.Bitmap.UpdatedBit | bitmap/bitmap.go:75-79 | (corrected) updating one pixel's bit changes that pixel's bit and no other |
| Bitmap.Bitmap.UpdatedBits | bitmap/bitmap.go:75-79 | (corrected) the same for all pixels at once |
| Bitmap.Bitmap.BitSet | bitmap/bitmap.go:67-80 | (as written) outside the rectangle nothing changes; inside it, byte y*Stride + x>>3 gets bit (y*Stride + x)&7 set to the value, and every pixel that the absolute indices map to that bit reads the value afterwards while every other pixel keeps its bit; the indices must lie in the slice, where Go panics otherwise |
| Bitmap.Bitmap.BitSetFromMin | bitmap/bitmap.go:67-80 | (corrected, offsets from Rect.Min) the pixel's bit becomes the value when it is inside; every other pixel keeps its bit |
| Bitmap.NoAliasAtOrigin | bitmap/bitmap.go:72-74 | at the origin two pixels share a bit as written exactly when they are the same inside pixel |
| Bitmap.AliasedPixels | bitmap/bitmap.go:72-74 | on Rect (4,0)-(12,2), stride 1 and 2 bytes, pixels (8,0) and (7,1) can be read and share one bit as written |
| Bitmap.AsWrittenAliasing | bitmap/bitmap.go:67-80 | (as written) setting pixel (8,0) on that bitmap turns pixel (7,1) on, which was off, while the corrected BitSet leaves it off |
| Bitmap.AtOutside | bitmap/bitmap.go:30-56 | outside the rectangle a pixel can be read and reads as the off colour |
| Bitmap.AsWrittenAtOrigin | bitmap/bitmap.go:58-60 | for a bitmap at the origin, the indices as written agree with the corrected ones, every pixel can be read, and BitAt agrees with the corrected BitAtFromMin |
| Bitmap.AsWrittenOutOfRange | bitmap/bitmap.go:58-62 | on Rect (0,1)-(8,2) the inside pixel (0,1) has a byte index as written at or past the slice (a Go panic), while the corrected index is inside |
| Braille.DotsDecode | braille/braille.go:15-40 | each of the eight dot bits is set exactly when its sample in the 2x4 grid is on; the mask is zero exactly when no sample is on |
| Braille.BrailleRune | braille/braille.go:41-44 | an empty grid gives ""; otherwise a single rune from U+2801 to U+28FF whose offset from U+2800 is the dot mask |
| Braille.BrailleAt | braille/braille.go:15-44 | the 8-dot mask of the 2x4 grid at sp as a Braille rune, or "" when no dot is on; never more than one rune |
| Braille.BrailleEmpty | braille/braille.go:15-44 | the glyph is empty exactly when no sample is on |
| Braille.BrailleInjective | braille/braille.go:15-44 | equal glyphs come from grids with the same samples |
| Braille.Bounds | braille/braille.go:75-81 | the bitmap rectangle starts at r.min and is 3w-1 by 6h-2 |
| Braille.BoundsCoverSamples | braille/braille.go:59-81 | every sample that Draw asks for lies inside Bounds |
| Braille.SetCell | braille/braille.go:64-67 | writing one cell's value keeps the drawing progress invariant |
| Braille.SkipCell | braille/braille.go:65 | skipping an empty cell keeps the drawing progress invariant |
| Braille.DrawnAll | braille/braille.go:58-70 | at the end of the loops, each cell of the region holds its value when it has one, and its old content otherwise |
| Braille.DrawCell | braille/braille.go:60-68 | one iteration of the inner loop advances the progress invariant by one cell |
| Braille.DrawRow | braille/braille.go:59-69 | the inner loop advances it by one row |
| Braille.DrawRows | braille/braille.go:58-70 | the outer loop covers the whole region |
| Braille.DrawIn | braille/braille.go:57-70 | within a region inside the display, each cell with a non-empty glyph gets the glyph and the on colour; the others keep their text and foreground; the storage outside the display is unchanged |
| Braille.Draw | braille/braille.go:50-71 | the same for the intersection of r with the display (nothing when it is empty); the background plane and the storage outside the display are untouched |
| Rectangle.QuotTwo | rectangle/rectangle.go:12 | halving with Go's truncating division loses at most one, and nothing below zero for non-negatives |
| Rectangle.MiddleCenter | rectangle/rectangle.go:9-14 | the result has the inner size; it is centred in the outer rectangle to within one cell on each axis; it lies inside the outer rectangle when it fits |
| Rectangle.MiddleCenterSelf | rectangle/rectangle.go:9-14 | centring a rectangle in itself gives it back |
| Rectangle.MiddleCenterIdempotent | rectangle/rectangle.go:9-14 | centring an already centred rectangle changes nothing |
| Rectangle.Outset | rectangle/rectangle.go:17-22 | the rectangle grows by 2x and 2y around the same centre, and contains the original for non-negative x and y |
| Rectangle.OutsetInverse | rectangle/rectangle.go:17-22 | outsetting by -x, -y undoes outsetting by x, y |
| Rectangle.Capture | rectangle/rectangle.go:25-39 | the result encloses the point and the rectangle, and each edge is either the old edge or the point's coordinate |
| Rectangle.CaptureInside | rectangle/rectangle.go:25-39 | a point already enclosed leaves the rectangle unchanged |
| Rectangle.CaptureIdempotent | rectangle/rectangle.go:25-39 | capturing the same point twice is capturing it once |
| Geometry.ScaleHalf | geometry/geometry.go:21-23 | scaling by 1/2 is `Point.Div(2)`, truncating toward zero (so (-1,3) becomes (0,1)) |
| Geometry.ScalePt | geometry/geometry.go:21-23 | each coordinate times up, divided by down with Go's truncating division: plain multiplication when down is 1, ordinary division for non-negative points and factors |
| Geometry.QuotNegate | geometry/geometry.go:22 | Go's truncating division commutes with negation |
| Geometry.ScaleNegate | geometry/geometry.go:21-23 | scaling is symmetric under negating the point |
| Geometry.MiddleCenter | geometry/geometry.go:7-12 | the result has the inner size |
| Geometry.MiddleCenterAgrees | geometry/geometry.go:7-12 | it equals rectangle.MiddleCenter on every input |
| Geometry.MiddleCenterSelf | geometry/geometry.go:7-12 | centring a rectangle in itself gives it back |
| Geometry.Outset | geometry/geometry.go:14-19 | it equals rectangle.Outset |
| Geometry.OutsetZero | geometry/geometry.go:14-19 | a zero outset is the identity, and the size grows by 2x and 2y |
| Earthgif.ProjectCenterPreserveAspect | cmd/earthgif/earthgif.go:109-130 | the projected rectangle is well formed |
| Earthgif.ScaleDown | cmd/earthgif/earthgif.go:114-121 | scaling one side by outer/inner (below one) keeps it between 0 and its old length |
| Earthgif.ProjectFits | cmd/earthgif/earthgif.go:110-121 | the doubled-width image fits the outer size; it keeps its size when it already fits, and otherwise touches the outer size on one axis |
| Earthgif.ProjectCentered | cmd/earthgif/earthgif.go:109-130 | the rectangle has the projected size, lies inside the outer area, and is centred to within one cell on each axis |
| Vtio.Byte | vtio/vtio.go:328-330 | Go's `byte(int)` conversion keeps values 0..255 |
| Vtio.ColorForCodes | vtio/vtio.go:311-336 | fails exactly for `5;n` with n outside the 256 colours (a Go index panic); otherwise it returns a suffix of the codes, strictly shorter when it consumed a code |
| Vtio.ColorForCodesPalette | vtio/vtio.go:318-322 | `5;n` gives colour n and the rest of the codes |
| Vtio.ColorForCodesRGB | vtio/vtio.go:323-332 | `2;r;g;b` gives the opaque colour of those bytes and the rest |
| Vtio.ColorForCodesDefault | vtio/vtio.go:312-335 | no code, a truncated `5` or `2`, or any other selector gives colour 0 |
| Vtio.SgrSingle | vtio/vtio.go:270-309 | the effect of each single SGR code: reset, the 8 normal and 8 bright foreground and background colours, the defaults 39 and 49, and no change for the codes it ignores |
| Vtio.Pen | vtio/vtio.go:284-305 | one SGR code other than 38 and 48: both pen colours stay or come from the first 16 colours, and only code 0 changes both |
| Vtio.SgrColors | vtio/vtio.go:279-307 | the codes applied in turn, 38 and 48 through colorForCodes; the result fails only when a 38 or 48 is among the codes |
| Vtio.Sgr | vtio/vtio.go:274-307 | SGR's colours: no codes at all act as the single code 0; otherwise the codes in turn; failure only through 38 or 48 |
| Vtio.SgrColorsAppend | vtio/vtio.go:279-307 | SGR codes without 38/48 apply one by one: a list of codes acts as its prefix followed by its suffix |
| Vtio.SgrColorsFrom | vtio/vtio.go:270-336 | SGR only ever sets a pen colour to one from the table or to an opaque colour |
| Vtio.IndexRoundTrip | display/ansi.go:46-78 | the codes the index encoders write for palette index i decode, in vtio's SGR, to colour i on the right plane |
| Vtio.RgbRoundTrip | display/ansi.go:94-106 | the 24-bit codes decode to the opaque colour with the same channels |
| Vtio.Fg24RoundTrip | display/ansi.go:80-85 | the 24-bit foreground encoder writes codes that vtio decodes back to the colour (any table colour or opaque colour) |
| Vtio.Bg24RoundTrip | display/ansi.go:87-92 | the same for the background |
| Vtio.PaletteRoundTrip | display/ansi.go:36-44 | the paletted encoders write the codes of the nearest palette entry; vtio decodes them to that entry, which is at least as close as any other |
| Vtio.LostSeekLands | vtio/vtio.go:198-204 | a one-based CUP seek lands on the target; the zero-based seek as written lands one up and one left of it |
| Vtio.SetG | vtio/vtio.go:96 | setting a cell changes that cell when it is on the display, and nothing else |
| Vtio.ClearedRowsBelow | vtio/vtio.go:81 | the rectangle scroll clears holds only the last dy rows of the handler's rectangle |
| Vtio.ClearedRows | vtio/vtio.go:81 | the rectangle scroll clears, within the display: empty, or inside the display's rows and, for dy >= 0, the last dy rows of the handler's rectangle |
| Vtio.SelfDrawnG | vtio/vtio.go:80 | a display drawn onto itself, as a grid: text read live with empty strings skipped, background from the source, foreground the second pass's background; the screen stays total |
| Vtio.ScrollAsWrittenG | vtio/vtio.go:79-82 | (as written) the self-draw clipped to the display, then the cleared rows blank; the screen stays total |
| Vtio.ScrollAsWrittenMoved | vtio/vtio.go:79-82 | outside the cleared rows the scroll as written is the self-draw |
| Vtio.ScrollAsWrittenRows | vtio/vtio.go:79-82 | (as written) each row above the cleared ones takes the text from dy rows down unless that is empty, when it keeps its own, and the background from dy rows down |
| Vtio.ScrollAsWrittenTopLeft | vtio/vtio.go:79-82 | (as written) on 3*dy rows the top foreground becomes the old background 2*dy rows down and the top background the old background dy rows down, while the corrected scroll moves the cell from dy rows down |
| Vtio.SelfTextOneStep | textile/textile.go:47-49 | a cell whose source is not written before it takes the source's text or, when that is empty, keeps its own |
| Vtio.SetOutside | vtio/vtio.go:96 | a write outside the display leaves the grid as it was |
| Vtio.PutWrapOut | vtio/vtio.go:88-97 | a rune put past the bottom-right corner scrolls the screen as written and lands in column 0 of a row outside the display, where it is lost |
| Vtio.ScrollG | vtio/vtio.go:79-82 | (corrected) the scroll that moves every plane up exactly keeps the screen a total map |
| Vtio.ScrollBeforeResize | vtio/vtio.go:79-82 | before any Resize the handler's rectangle (zero-valued at vtio.go:73) is empty, and scroll changes nothing |
| Vtio.ScrollOneRow | vtio/vtio.go:79-82 | (corrected) scrolling by one moves every row up one, blanks the last row and leaves cells off the rectangle alone |
| Vtio.ScrollRowsAt | vtio/vtio.go:79-82 | (corrected) scrolling by dy moves every cell up dy rows, blanks the last dy rows and leaves cells off the rectangle alone |
| Vtio.FlushG | vtio/vtio.go:86-98 | flushing keeps the screen a total map; a wrap past the bottom scrolls by the scroll as written (ScrollAsWrittenG), through PutG |
| Vtio.PutG | vtio/vtio.go:88-97 | one rune of Flush: past Max.X the pen wraps to column 0 of the next row, past Max.Y the screen scrolls as written and the row stays; the cell is set and the pen moves right; the screen stays total and the pen never moves up nor more than one row down |
| Vtio.RowG | vtio/vtio.go:96-97 | writing a run of runes along one row keeps the screen a total map |
| Vtio.FlushAlongRow | vtio/vtio.go:86-98 | while no wrap happens, flushing writes the runes left to right along one row and advances the column by their number |
| Vtio.FlushInRow | vtio/vtio.go:88-97 | a rune before the wrap column is set at the pen, which moves right |
| Vtio.RowAfterFirst | vtio/vtio.go:96-97 | writing a row is writing its first cell, then the rest of the row |
| Vtio.FlushOne | vtio/vtio.go:86-98 | flushing one rune is putting it |
| Vtio.FlushPenBound | vtio/vtio.go:88-95 | the wrap and scroll logic keeps the pen within one column past the right edge and not below the bottom edge; flushing never moves the pen up |
| Vtio.ShiftCells | vtio/vtio.go:80 | (corrected) the shift the corrected scroll performs: each cell reads the old cell at the source offset, every plane and empty text included; cells outside are unchanged |
| Vtio.Shifted | vtio/vtio.go:80 | (corrected) the plane-level copy results give that cell-level shift |
| Vtio.ShiftG | vtio/vtio.go:80 | (corrected) the grid-level shift keeps the screen a total map |
| Vtio.ScrollShifted | vtio/vtio.go:80 | (corrected) the grid after the exact shift keeps the screen a total map |
| Vtio.ScrollIs | vtio/vtio.go:79-82 | (corrected) the corrected scroll is the exact shift followed by clearing the vacated rows |
| Vtio.SetShown | vtio/vtio.go:96 | setting a display cell updates the shown grid as SetG says |
| Vtio.FillShown | vtio/vtio.go:236-240 | filling a display region updates the shown grid as FillG says |
| Vtio.ClearShown | vtio/vtio.go:81 | clearing updates the shown grid with blank cells |
| Vtio.ShiftShown | vtio/vtio.go:80 | (corrected) the exact shift of a region updates the shown grid as ShiftG says |
| Vtio.DrawnOntoBlank | vtio/vtio.go:62-63 | drawing onto a blank display of distinct storage copies the source cells and leaves the rest blank |
| Vtio.ResizeG | vtio/vtio.go:59-66 | the resized screen is a total map |
| Vtio.ResizeKeeps | vtio/vtio.go:62-64 | after a resize, cells inside the new rectangle keep their content and all others are blank |
| Vtio.ResizeTwice | vtio/vtio.go:59-66 | resizing twice to the same rectangle is resizing once |
| Vtio.FillG | vtio/vtio.go:236-240 | filling keeps the screen a total map |
| Vtio.ErasedLineOnPenRow | vtio/vtio.go:232-243 | every EL mode erases only on the pen's row |
| Vtio.ErasedLine | vtio/vtio.go:232-243 | the rectangle EL fills: from the pen to Max.X, from column 0 to the pen, or the whole row for modes 0, 1 and 2, nothing otherwise; always empty or exactly the pen's row |
| Vtio.ErasedLineModes | vtio/vtio.go:232-243 | modes 0 and 1 together cover exactly mode 2's line; mode 1 stops short of the pen |
| Vtio.TabStop | vtio/vtio.go:117-118 | a tab moves right to the next multiple of 8, at most 8 columns on, on the same row |
| Vtio.ExecutePos | vtio/vtio.go:112-123 | the pen after Execute's switch: only LF changes the row, by one; BS moves left but never past column 0 from a column at or right of it; bytes other than LF, CR, HT and BS leave the pen |
| Vtio.TabLeftOfZero | vtio/vtio.go:117-118 | from a column left of 0 (within 8), a tab lands on column 0, as Go's truncating division gives |
| Vtio.FlushT | vtio/vtio.go:84-102 | a flush empties the buffer and keeps the pen colours; its screen is FlushG's, with the scroll as written |
| Vtio.Step | vtio/vtio.go:104-336 | every event except SGR succeeds, and the screen stays total; every flushing event scrolls as written |
| Vtio.Steps | vtio/vtio.go:104-336 | running a list of events keeps the screen total, built on Step and so on the scroll as written |
| Vtio.IgnoredStep | vtio/vtio.go:212-368 | the ignored events (DECTCEM, DECOM, DECCOLM, IL, DL, ICH, DCH, SU, SD, DA, DECSTBM, IND, RI) change nothing, and do not even flush |
| Vtio.FlushingStep | vtio/vtio.go:172-229 | CNL, CPL and ED only flush the buffer |
| Vtio.FlushTwice | vtio/vtio.go:84-102 | flushing twice is flushing once |
| Vtio.StepsAppend | vtio/vtio.go:39-51 | handling a concatenation of event lists is handling the first list then the second, with a failure stopping the run |
| Vtio.StepsOne | vtio/vtio.go:39-51 | handling a one-event list is handling that event |
| Vtio.ResizedCells | vtio/vtio.go:62-64 | the new display shows the resized grid |
| Vtio.BlankSnaps | display/display.go:23-30 | the snapshot of a blank display reads blank everywhere |
| Vtio.DrawOntoBlank | vtio/vtio.go:63 | drawing the old display onto the new blank one |
| Vtio.DrawnNew | vtio/vtio.go:62-63 | a fresh display of the new rectangle with the old display drawn onto it |
| Vtio.Resized | vtio/vtio.go:62-64 | a fresh display, of the new rectangle, showing the resized grid |
| Vtio.ShiftForScroll | vtio/vtio.go:80 | (corrected) the exact shift of the corrected scroll |
| Vtio.ScrollShown | vtio/vtio.go:79-82 | (corrected) the corrected scroll updates the shown grid as ScrollG says |
| Vtio.ShowsSnaps | display/display.go:115-120 | a display that shows a grid has current snapshots that read as that grid |
| Vtio.SelfTextIs | textile/textile.go:44-52 | the text of a textile drawn onto itself is SelfTextG of the grid its snapshot shows |
| Vtio.SelfDrawnText | display/display.go:110 | the text plane of one cell after a self-draw, as SelfDrawnG gives it |
| Vtio.SelfDrawnPlanes | display/display.go:107-109 | the colour planes of one cell after a self-draw, read from the snapshots taken before it: the background from the source, the foreground from the second pass |
| Vtio.SnappedColors | display/display.go:107-109 | those snapshot reads in grid terms: the foreground is the background two shifts down when both shifts stay inside the region, the source foreground otherwise |
| Vtio.SelfDrawnColors | display/display.go:107-109 | the colours of one cell after a self-draw, in grid terms |
| Vtio.SelfDrawnCell | display/display.go:107-110 | one cell after a self-draw reads as SelfDrawnG |
| Vtio.SelfDrawShown | vtio/vtio.go:80 | display.Draw of a display onto itself leaves it showing SelfDrawnG of the old screen |
| Vtio.ShiftThenClear | vtio/vtio.go:79-82 | (corrected) the exact shift followed by the clear of the vacated rows |
| Vtio.ScrollAsWritten | vtio/vtio.go:79-82 | (as written) display.Draw of the display onto itself from dy rows down, then the clear: the display afterwards shows ScrollAsWrittenG of the old screen, on all three planes |
| Vtio.ThreeRows | vtio/vtio.go:79-82 | a 1x3 display with rows a (white on blue), b (red on blue) and c (white on green), showing ThreeRowsG |
| Vtio.ThreeRowsG | vtio/vtio.go:79-82 | the screen of ThreeRows is total |
| Vtio.ThreeRowsSet | vtio/vtio.go:79-82 | setting the three cells on a blank screen of its size gives ThreeRowsG |
| Vtio.ThreeRowsAt | vtio/vtio.go:79-82 | rows 1 and 2 of ThreeRowsG hold b (red on blue) and c (white on green) |
| Vtio.ClipUp | vtio/vtio.go:80 | clipping scroll's self-draw leaves the full width and all but the last dy rows, reading from row dy |
| Vtio.ScrollTopForeground | vtio/vtio.go:79-82 | (as written) on a display of 3*dy rows, the scroll leaves the top foreground equal to the old background 2*dy rows down |
| Vtio.ScrollAsWrittenCounterexample | vtio/vtio.go:79-82 | (as written) on ThreeRows scrolled by one, the top foreground is Green (an old background), not Red (the foreground that scrolled up) |
| Vtio.StaleTextAfterScroll | vtio/vtio.go:79-98 | (as written) on a 1x3 display, Print a, Flush, CUP(4,3), Print x, Flush leaves the top cell holding a: the scroll keeps text above a blank row |
| Vtio.StaleTextIntended | vtio/vtio.go:79-98 | (corrected) after the first flush the top cell holds a, and the corrected scroll by one empties it |
| Vtio.StaleSteps | vtio/vtio.go:39-98 | that run of five callbacks leaves the as-written scroll of the screen with a at the top left, the pen at (1,3) and an empty buffer |
| Vtio.StaleTopWritten | vtio/vtio.go:79-82 | (as written) the top cell after the first flush and the scroll keeps the text a |
| Vtio.StaleTop | vtio/vtio.go:79-82 | above a blank row, the scroll as written keeps a cell's text and the corrected scroll empties it |
| Vtio.FlushFirst | vtio/vtio.go:86-98 | the first flush of that run sets a at the top left and moves the pen to (1,0) |
| Vtio.FlushWrap | vtio/vtio.go:86-98 | the second flush wraps past the bottom, scrolls as written, and loses the rune outside the display |
| Vtio.SetTop | vtio/vtio.go:96 | setting the top-left cell leaves the blank cell below it blank |
| Vtio.StepsFive | vtio/vtio.go:39-51 | five callbacks in turn, each leaving the next state, are a run of five events |
| Vtio.StepPrint | vtio/vtio.go:104-107 | Print on an empty buffer holds one byte |
| Vtio.StepFlush | vtio/vtio.go:84-102 | the parser's Flush callback is a flush, with nothing else changed |
| Vtio.StepFlushFirst | vtio/vtio.go:84-102 | the first Flush callback of the run, as FlushFirst |
| Vtio.StepFlushWrap | vtio/vtio.go:84-102 | the second Flush callback of the run, as FlushWrap |
| Vtio.StepCUP | vtio/vtio.go:198-204 | CUP with an empty buffer moves the pen to (x-1, y-1) and nothing else |
| Vtio.DecodeOne | vtio/vtio.go:86 | one ASCII byte decodes to its own character |
| Vtio.PutShown | vtio/vtio.go:87-97 | putting one rune with wrap and scroll (the scroll as written) updates the shown grid and pen as PutG says |
| Vtio.Handler.NewDisplayWriter | vtio/vtio.go:15-28 | a blank display of the rectangle; the pen at the origin, white on black; an empty buffer; the handler's own rectangle still empty |
| Vtio.Handler.DrawTo | vtio/vtio.go:53-57 | the emulator's display is drawn onto the given one (a Src draw from the origin); the emulator's state does not change |
| Vtio.Handler.Resize | vtio/vtio.go:59-66 | a fresh display of the new rectangle; the screen becomes ResizeG of the old screen; nothing else changes |
| Vtio.Handler.Scroll | vtio/vtio.go:79-82 | (as written) the screen becomes ScrollAsWrittenG of the old screen, and nothing else changes |
| Vtio.Handler.SetScreen | vtio/vtio.go:79-82 | the ghost screen becomes a grid the display already shows; nothing else changes |
| Vtio.Handler.MovePen | vtio/vtio.go:109-204 | the pen moves to the point; nothing else changes |
| Vtio.Handler.Put | vtio/vtio.go:87-97 | one rune of the flush loop, as PutG says, scrolling as written |
| Vtio.Handler.Flush | vtio/vtio.go:84-102 | the state becomes FlushT of the old state, scrolling as written |
| Vtio.Handler.Print | vtio/vtio.go:104-107 | the byte is appended to the buffer |
| Vtio.Handler.Execute | vtio/vtio.go:109-125 | flush (scrolling as written), then the newline, carriage return, tab or backspace motion, as Step says |
| Vtio.Handler.CUU | vtio/vtio.go:128-136 | flush (scrolling as written), then the pen moves up n rows, unclamped |
| Vtio.Handler.CUD | vtio/vtio.go:139-147 | flush (scrolling as written), then the pen moves down n rows |
| Vtio.Handler.CUF | vtio/vtio.go:150-158 | flush (scrolling as written), then the pen moves right n columns |
| Vtio.Handler.CUB | vtio/vtio.go:161-169 | flush (scrolling as written), then the pen moves left n columns |
| Vtio.Handler.CHA | vtio/vtio.go:184-188 | flush (scrolling as written), then the pen goes to column n-1 |
| Vtio.Handler.VPA | vtio/vtio.go:191-195 | the pen goes to row n-1 without a flush |
| Vtio.Handler.CUP | vtio/vtio.go:198-204 | flush (scrolling as written), then the pen goes to (x-1, y-1) |
| Vtio.Handler.EL | vtio/vtio.go:232-243 | modes 0, 1 and 2 fill the right part, left part or whole pen row with spaces in the pen colours; other modes do nothing; no flush |
| Vtio.Handler.ApplySgr | vtio/vtio.go:274-307 | the SGR loop sets the pen colours as Sgr specifies and fails exactly where Go would panic |
| Vtio.Handler.SGR | vtio/vtio.go:270-309 | flush (scrolling as written), then the SGR colours; succeeds exactly when the specification does |
| Vtio.Handler.HandleMove | vtio/vtio.go:109-210 | dispatch of the motion events, each as Step says, with the flush scrolling as written |
| Vtio.Handler.HandleStep | vtio/vtio.go:128-169 | dispatch of the relative motions, as Step says |
| Vtio.Handler.HandleJump | vtio/vtio.go:109-210 | dispatch of Execute and the absolute motions (HVP as CUP), as Step says |
| Vtio.StepHvp | vtio/vtio.go:207-210 | HVP takes the same step as CUP |
| Vtio.Handler.Handle | vtio/vtio.go:104-368 | any event is handled as Step says (the scroll as written), and fails exactly when Step does |
| Vtio.Handler.HandleInPlace | vtio/vtio.go:104-368 | dispatch of the events that do not move the pen, as Step says |
| Vtio.Handler.Run | vtio/vtio.go:39-51 | a parsed event stream is handled as Steps says (the scroll as written), and fails exactly when Steps does |

## Left out

- The ANSI parser (go-ansiterm) is not part of this model. `DisplayWriter.Write` is modelled as `Vtio.Handler.Run` over a sequence of already parsed events.
- The RW lock, the notification channel `C()` and all concurrency are left out. The model is sequential.
- `display.Colors` and the vtcolor colour data are not part of this model. The 256-colour table is a parameter `colors`.
- `color.Palette.Index` is modelled by `Color.Nearest` over `Color.Dist`, for palettes and colours that are `color.RGBA` values. Other colour types, whose `RGBA()` method converts first, are not modelled.
- The standard library's conversion `rgba` (color.RGBAModel) is left out. Colours are RGBA values from the start.
- Display.Draw: only the `draw.Src` operator is modelled. `draw.Over` and alpha blending are not; every caller in the core passes `draw.Src`.
- Display.Draw requires that source and destination are the same display or share no storage. Partly overlapping sub-displays are not modelled.
- Vtio.Handler.DrawTo requires the target display to share no storage with the emulator's display.
- Textile.Draw: for one textile drawn onto itself, its contract states every cell, including the smear of a read behind the write position (`SelfDrawn`). For two distinct views that share storage and read behind, it states only that cells outside the rectangle are kept.
- Sheet.Draw: the `Sheet` interface is modelled by its one implementation, `Strings`, which has the textile layout. Its postcondition inside the overlap holds when no cell is overwritten before it is read; two sheets sharing storage are otherwise not modelled.
- The type `sheet.Uniform` is left out. It has no methods in the source.
- `sheet.NewStrings`, `Strings.At`, `Strings.Set`, `SubSheet` and `StringsOffset` have the layout of the textile functions and are modelled by them.
- `Textile.Bounds`, `Display.Bounds`, `Bitmap.Bounds`, `Bitmap.ColorModel` and `display.New2` are left out because they only return a field or call New twice.
- `Bitmap.Set` is left out. It classifies a colour through the palette's `Convert`, which is standard-library colour arithmetic. `Bitmap.BitSet`, which it calls, is modelled as written.
- Bitmap.Bitmap.BitAt, Bitmap.Bitmap.At and Bitmap.Bitmap.BitSet require `Indexable`: the byte index as written lies inside the slice. Go panics with an index error otherwise; the model does not state the panic.
- `bitmap.NewPaletted` and the colour classification in braille.Draw are left out. Braille.Draw takes the one-bit source as a function `bit`, and its `off` colour only feeds NewPaletted.
- Textile.Textile.New requires a well-formed rectangle. For an inverted rectangle Go panics only when the count w*h is negative. Otherwise, for instance on a rectangle inverted on both axes (a positive count and a negative stride), Go builds a textile whose rectangle holds no point. The model does not cover such textiles.
- Bitmap.Bitmap.New requires a well-formed rectangle. For an inverted rectangle Go panics only when the count stride*h is negative. A width from -14 to -1 gives the stride (w+7)/8 = 0 and an empty slice; a width of -15 or less with a negative height gives a negative stride and a positive count. In those cases Go builds a bitmap whose rectangle holds no point. The model does not cover such bitmaps.
- Display.Display.New requires a well-formed rectangle, for the same reason as Textile.Textile.New, whose three planes it allocates.
- Earthgif.ProjectCenterPreserveAspect requires a non-negative outer size. With inner.X = 0 > outer.X, Go divides by zero.
- Earthgif.ProjectCenterPreserveAspect: its own postcondition says only that the rectangle is well formed. Its size and centring are in ProjectFits and ProjectCentered, which assume a non-negative inner size.
- An SGR `5;n` with a palette index outside 0..255 makes Go panic with an index error. The model returns `None`, and `Handle`, `SGR` and `Run` then report failure.
- Vtio.Handler.CNL, CPL, ED and HVP have no methods of their own. They are handled by `Vtio.Handler.Handle` through `Vtio.Step` (CNL, CPL and ED only flush; HVP is CUP).
- Ansi.FgIndex: its own contract says only that the buffer is extended. The exact bytes are in Ansi.IndexCodes, and Vtio.IndexRoundTrip decodes them.
- Ansi.BgIndex: its own contract says only that the buffer is extended. The exact bytes are in Ansi.IndexCodes, and Vtio.IndexRoundTrip decodes them.
- Ansi.Color24: its own contract says only that the buffer is extended. The exact bytes are in Ansi.Color24Codes, and Vtio.RgbRoundTrip decodes them.
- Ansi.FgPalette: its own contract says only that the buffer is extended. Vtio.PaletteRoundTrip states the bytes and what they decode to.
- Ansi.BgPalette: its own contract says only that the buffer is extended. Vtio.PaletteRoundTrip states the bytes and what they decode to.
- Ansi.Fg24: its own contract says only that the buffer is extended. Vtio.Fg24RoundTrip states the bytes and their decoding.
- Ansi.Bg24: its own contract says only that the buffer is extended. Vtio.Bg24RoundTrip states the bytes and their decoding.
- Utf8.Decode: invalid UTF-8 decodes to U+FFFD one byte at a time, as Go does. No lemma is given about invalid input beyond the length bounds.
- Text.Write works on runes. The text is a `string` of code points, so `range str` over UTF-8 bytes is not modelled separately.
- Integer overflow of Go's `int` is not modelled. All coordinates are unbounded integers.
- Go's `/` truncates toward zero and is modelled explicitly by `Geom.Quot`.
- `image.Rectangle` and `image.Point` are modelled by `Geom.Rect` and `Geom.Point`, with Go's `Intersect` (an empty result is the zero rectangle), `In`, `Add`, `Sub` and `Size`.
- Terminal I/O (`os.Stdout.Write` and the rest of cmd/earthgif) is left out.

## Findings

| source | as written | input that shows it | evidently intended | confidence | as-written member | corrected member |
|---|---|---|---|---|---|---|
| vtio/vtio.go:79-82 | `scroll` draws the display onto itself and then clears the vacated rows. (a) display.Draw's second pass copies the background into the foreground, reading the background that the first pass has already shifted, and the third pass shifts the foreground once more (display/display.go:107-109). (b) textile.Draw skips empty source strings (textile/textile.go:47-49), so a row above a blank row keeps its old text | (a) a 1x3 display with rows a (white on blue), b (red on blue) and c (white on green), scrolled by one: the top row's foreground becomes Green, c's old background, instead of Red, b's foreground. (b) Resize to (0,0)-(1,3); Print 'a'; Flush; CUP(4,3); Print 'x'; Flush: the flush wraps past the bottom and scrolls, and cell (0,0) still holds "a" instead of "" | every plane moves up dy rows, empty text included, and the vacated rows are cleared | not executed | Vtio.ScrollAsWritten, Vtio.ScrollAsWrittenTopLeft, Vtio.ScrollAsWrittenCounterexample, Vtio.StaleTextAfterScroll | Vtio.ScrollG, Vtio.ScrollRowsAt, Vtio.ScrollShown, Vtio.StaleTextIntended |
| bitmap/bitmap.go:58-74 | BitAt and BitSet compute the byte offset y*Stride + x>>3 and the bit offset (y*Stride + x)&7 from the absolute coordinates, ignoring Rect.Min | (1) Rect (0,1)-(8,2): pixel (0,1) is inside, the stride is 1 and the slice has 1 byte, and the pixel indexes byte 1, an index panic. (2) Rect (4,0)-(12,2): stride 1, 2 bytes; pixels (8,0) and (7,1) both map to byte 1, bit 0, so setting (8,0) also turns (7,1) on | offsets measured from Rect.Min: byte (y-min.y)*Stride + ((x-min.x) >> 3) and bit ((y-min.y)*Stride + (x-min.x)) & 7, which is what the package computes when Rect.Min is the origin | not executed | Bitmap.Bitmap.BitSet, Bitmap.AsWrittenOutOfRange, Bitmap.AsWrittenAliasing | Bitmap.Bitmap.BitSetFromMin, Bitmap.Bitmap.IndexInjective, Bitmap.NoAliasAtOrigin |
| display/cursor.go:100-104 | from a lost position, Go writes `ESC [ y ; x H` with zero-based coordinates; CUP is one-based (ECMA-48 section 8.3.21, and vtio's own CUP at vtio/vtio.go:201-202) | dest (5,3) writes `ESC [3;5H`, which puts the cursor at (4,2) | `ESC [ y+1 ; x+1 H` | not executed | Cursor.MovedFromLost, Cursor.LostSeekAsWrittenParams, Vtio.LostSeekLands | Cursor.LostSeekParams |
