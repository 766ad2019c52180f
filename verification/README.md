# A verified model of the emulator's video core and monitor matcher

This project models two parts of a small 65C02 fantasy console written in C:

- **Video** (`main.c`):
  - the 64 KiB address space with the CPU's read and write hooks;
  - the fixed video regions within it;
  - the 8x4 colour table built at start-up;
  - the tile blitter `drawTile`;
  - the background compositor `renderFromVRAM`. It walks the 30x32 nametable and gives each cell a hue from the palette-select byte and a pattern from the background pattern table.
- **Monitor** (`monitor.c`): the command matcher `lazyMatch`. It classifies an operator's input line against the six-word command table. It reads one character at a time and eliminates every word that disagrees with the input so far.

Modules:

- `Pattern` (`pattern.dfy`): the 16-byte tile pattern format and its decoding to an 8x8 grid of 2-bit shades. It also gives the inverse encoding and proves both round trips.
- `Palette` (`palette.dfy`): the colour table.
  - `SetupPalette` fills an `array2<Color>` in place, as the start-up code does.
  - `PaletteEntry` is its closed form.
- `Video` (`video.dfy`): the region constants, the nametable-entry selectors and the specification functions `BackgroundHue` and `BackgroundShade`.
  - The `Console` class owns the memory, the colour table and the frame image.
  - Its methods are `MemRead`, `MemWrite`, `DrawTile` and `RenderFromVRAM`.
  - `RenderFromVRAM` is proved to leave every pixel at the colour that the specification functions select.
- `Monitor` (`monitor.dfy`): the command enum and table, and `LazyMatch`.
  - `LazyMatch` is a loop over a `bool` array of drop flags.
  - It is proved equal to the recursive specification `Classify`.
  - `Classify` is proved equal to a closed form: the first character alone decides.

Bytes are the integers 0..255 (`Pattern.Byte`). The source's masks and shifts are written as remainders and quotients. Separate lemmas (`PairAtIsShift`, `SelectorsMatchBitOps`) prove that these agree with the C bit expressions on `bv8`.

Four facts about the code shape the model:

- **Decoding order.** Pixel `j` of a byte group is bit pair `j % 4`, least significant pair first (`main.c:57`; `LowestPairFirst`).
- **Bits 6:5 of an entry.** The compositor never uses them: both selectors mask them away (`main.c:72-73`; `FlipBitsIgnored`), so no tile is ever mirrored.
- **Palette arithmetic.** Lower shades divide before they multiply: `channel / 3 * level` (`main.c:126-128`). This equals `floor(channel * level / 3)` on the stored values 0 and 255 (`DivideFirstIsExactOnTable`) but not in general (`DivideFirstDiffersInGeneral`).
- **Command set.** The command table has exactly six words: help, step, frame, run, dump and quit (`monitor.c:17-25`).

## Model

| member | source | states |
|---|---|---|
| Pattern.ByteIndex | main.c:57 | the pixel at (row, col) lives in byte `2*row + col/4`: in 0..15, the row's two bytes consecutive, columns 0..3 in the first |
| Pattern.PairAt | main.c:57 | bit pair k of a byte is a shade index in 0..3 |
| Pattern.PairAtIsShift | main.c:57 | on an 8-bit value, pair k is exactly the C expression `(b >> k*2) % 4` for each k in 0..3 |
| Pattern.ShadeAt | main.c:57 | the shade of the pixel at (row, col) of a 16-byte pattern is in 0..3 |
| Pattern.DecodeTile | main.c:55-57 | decoding yields an 8x8 grid of shades in 0..3, cell (r, c) being the shade the blitter computes for i = r, j = c |
| Pattern.DecodeEncode | main.c:55-57 | decoding the encoding of any 8x8 tile of 2-bit shades gives the tile back |
| Pattern.EncodeDecode | main.c:55-57 | encoding the decoding of any 16-byte pattern gives the pattern back: decoding loses no bit |
| Pattern.LowestPairFirst | main.c:57 | column 0 of each byte group is the byte's low two bits and column 3 its top two bits (least-significant pair first) |
| Palette.FullBrightness | main.c:115-122 | the full-brightness colour of hue h is opaque with red, green and blue each 255 or 0 according to bits 2, 1 and 0 of h |
| Palette.DimChannel | main.c:126-128 | a derived channel is never brighter than the full one, is 0 at level 0, and is at most `c*level/3` |
| Palette.Dim | main.c:126-129 | a derived shade is opaque, no channel is brighter than in the full colour, and level 0 is opaque black |
| Palette.PaletteEntry | main.c:114-131 | every entry of the finished table is opaque, shade 3 is the hue's full-brightness colour, and no shade is brighter than it in any channel |
| Palette.SetupPalette | main.c:114-131 | after start-up column 3 holds the full-brightness colours, each lower shade is derived from column 3 of its hue, and every entry equals `PaletteEntry` |
| Palette.DeriveShades | main.c:124-130 | one pass of the hue loop sets shades 0..2 of hue i from its shade 3 and leaves every other entry unchanged |
| Palette.ShadeZeroIsBlack | main.c:124-130 | shade 0 of every hue is opaque black |
| Palette.EntriesOpaque | main.c:115-129 | every table entry has alpha 255 |
| Palette.PaletteClosedForm | main.c:114-131 | each channel of entry (hue, shade) is 85*shade when the hue's bit for that channel is set and 0 otherwise |
| Palette.ShadesAscend | main.c:114-131 | within a hue, every channel is non-decreasing in the shade level |
| Palette.DivideFirstIsExactOnTable | main.c:126-128 | on the stored channels, dividing before multiplying equals `floor(c*level/3)` |
| Palette.DivideFirstDiffersInGeneral | main.c:126-128 | for a general channel value the two orders differ (c = 2, level = 2) |
| Video.RegionLayout | main.c:22-27 | the pattern tables, the nametable and the palette-select byte are contiguous and do not overlap; the object and text tables follow; the 32x30 grid of 8x8 tiles is exactly 256x240 |
| Video.TileHue | main.c:65-72 | the hue of a tile is in 0..7 |
| Video.PatternIndex | main.c:73 | the pattern an entry names is in 0..31 |
| Video.SelectorsMatchBitOps | main.c:65-73 | hue and pattern index equal the C expressions `(e & 0x80) ? (p >> 3) & 7 : p & 7` and `e & 0x1F` on 8-bit values |
| Video.NametableAddr | main.c:68-73 | the entry of cell (row, col) lies in the nametable, at row-major offset 32*row + col |
| Video.EntryAt | main.c:68-73 | the entry that covers pixel (x, y) is the nametable byte of row y/8, column x/8 |
| Video.PatternAddr | main.c:69-73 | background pattern i occupies 16 bytes at offset 16*i inside the background pattern table |
| Video.BackgroundPattern | main.c:69-73 | the pattern of index i is the 16 memory bytes starting at PMB + 16*i |
| Video.BackgroundHue | main.c:65-72 | the hue at every frame pixel is in 0..7 |
| Video.BackgroundShade | main.c:57-73 | the shade at every frame pixel is in 0..3 |
| Video.FlipBitsIgnored | main.c:72-73 | entries that differ only in bits 6:5 select the same hue and pattern |
| Video.BackgroundDependsOnlyOnVideoState | main.c:64-77 | the frame depends only on the background pattern table, the palette-select byte and bits 7 and 4:0 of each nametable entry |
| Video.TilesPartitionFrame | main.c:70-73 | the 30x32 blocks at (8*col, 8*row) cover every frame pixel exactly once |
| Video.TileAt | main.c:70-73 | every pixel of the block of cell (row, col) gets the hue of that cell's entry and the shade at its offset in that entry's pattern |
| Video.Console.constructor | main.c:90-131 | after start-up memory holds the loaded image, the frame is black and the colour table equals `PaletteEntry` |
| Video.Console.MemRead | main.c:44-46 | reading returns the byte stored at the address, whatever the debug flag |
| Video.Console.MemWrite | main.c:48-50 | after a write the address reads back the value and every other address reads as before |
| Video.Console.DrawTile | main.c:54-62 | for 8-bit corner coordinates, exactly the in-frame pixels of the 8x8 block at (x, y) change, each to `colors[tileColor][shade]` for its decoded shade; off-frame pixels are dropped |
| Video.Console.TilePainted | main.c:73 | drawing a cell's tile with the hue and pattern its entry selects extends the correctly painted region by that cell |
| Video.Console.FetchCell | main.c:68-73 | the inner loop's lookups yield the entry's hue and the 16 bytes of the pattern its low five bits name |
| Video.Console.DrawCell | main.c:71-74 | one inner-loop pass paints cell (i, j) correctly, keeps every earlier cell correct, and changes no pixel outside the cell's 8x8 block |
| Video.Console.RenderFromVRAM | main.c:64-77 | afterwards every frame pixel has the colour of its tile's hue and decoded shade as memory selects them |
| Monitor.Index | monitor.c:8-15 | each command's enum value is a table index in 0..5 |
| Monitor.CommandAt | monitor.c:8-25 | the cast of index j to the enum yields the command whose value is j and whose word is table entry j |
| Monitor.Word | monitor.c:17-24 | each command's word is a non-empty entry of the command table that names no other command |
| Monitor.CommandChar | monitor.c:42 | reading word j as a C string yields NUL exactly at its length |
| Monitor.Ends | monitor.c:34 | scanning stops exactly at the end of the sequence, at a NUL or at a newline |
| Monitor.Candidate | monitor.c:42-46 | word j is still possible exactly when the typed prefix is a prefix of it, character by character |
| Monitor.Dropped | monitor.c:36-48 | after reading a prefix, word j is flagged exactly when it no longer matches that prefix |
| Monitor.Remaining | monitor.c:33 | the number of words not yet ruled out never exceeds the table size |
| Monitor.FirstClear | monitor.c:52-56 | the search for the survivor returns the first clear flag, every earlier flag being set |
| Monitor.Decide | monitor.c:34-62 | reading from position n: Help when the line ends there; a command other than Help only when its word agrees with the first n+1 characters |
| Monitor.Survivor | monitor.c:51-56 | when one word remains, the command returned is the one whose flag is clear, and every other flag is set |
| Monitor.Classify | monitor.c:31-66 | Help for a line that ends at once; a command other than Help only when its word starts with the line's first character |
| Monitor.RemainingAfterDrop | monitor.c:46-47 | flagging a clear word decreases the count of possible commands by exactly one |
| Monitor.NoneClear | monitor.c:59-61 | when the count of possible commands is zero, every word is flagged |
| Monitor.OnlyOneClear | monitor.c:51-56 | when the count is one, the clear flag found is the only clear flag |
| Monitor.DroppedStaysDropped | monitor.c:37-40 | a word ruled out is never possible again however many characters follow |
| Monitor.CandidateStep | monitor.c:42-46 | a word survives one more character exactly when it survived so far and its next character, not NUL, equals it |
| Monitor.RuleOut | monitor.c:36-48 | one pass of the inner loop turns the flags for i characters into the flags for i+1 and keeps the count equal to the clear flags |
| Monitor.LazyMatch | monitor.c:31-66 | the matcher's result equals the specification `Classify` on every input line |
| Monitor.EmptyLineIsHelp | monitor.c:34-65 | a line ending before its first character yields Help |
| Monitor.FirstLettersDistinct | monitor.c:17-24 | no two command words share their first letter |
| Monitor.FirstCharOutcome | monitor.c:42-61 | after one character exactly one word remains if it is a word's first letter (and that word is chosen), otherwise none |
| Monitor.ClassifyByFirstLetter | monitor.c:31-66 | the result is Help for an empty line, else the command whose word starts with the first character, else Help |
| Monitor.ClassifySound | monitor.c:51-56 | a command other than Help is chosen only when the line starts with that command's first letter |
| Monitor.ClassifyIgnoresRest | monitor.c:34 | characters from the first NUL or newline on never change the result |
| Monitor.StepExamples | monitor.c:31-66 | every line starting with "s" ("s", "st", "stxyz") yields Step |
| Monitor.HelpExample | monitor.c:31-66 | a line starting with "h" yields Help |
| Monitor.NoMatchExample | monitor.c:59-61 | after "z" no word remains, and every line starting with "z" ("zzz") yields Help |
| Monitor.EmptyExamples | monitor.c:34-65 | the empty line and a line starting with a newline yield Help |
| Monitor.QuitExample | monitor.c:31-66 | a line starting with "q" yields Quit |

## Left out

- The raylib window, texture and frame pacing (`main.c:107-108`, `main.c:111`, `main.c:142-150`) are external rendering. The black frame that `GenImageColor` creates (`main.c:110`) is modelled by `Video.Console.constructor`.
- The main loop that single-cycles the CPU, stops on opcode 0xdb and composites on opcode 0xcb (`main.c:133-159`) drives the foreign CPU core. Only the compositing it triggers is modelled.
- The 65C02 core (vrEmu6502) and `stepcpu` (`monitor.c:68-72`) are foreign code. `MemRead` and `MemWrite` are modelled as the hooks that core calls.
- Reading the memory image from a file and its error exits (`main.c:80-98`) are file I/O. `Video.Console.constructor` takes the image contents as a parameter.
- Writing `vram.bin` at exit (`main.c:160-162`) and `dump.bin` from the monitor are file output.
- The `monitor` loop itself is console I/O and process exit: prompt, register display, `fgets`, the help text, `step`, `frame`, `dump`, `run` and `quit`. Only its classifier `lazyMatch` is modelled.
- The controller masks, the object entry struct and the PMF, OBM and TXBL regions have no use in the modelled code. Only their place in the region layout is stated.
- Video.Console.DrawTile: raylib's `ImageDrawPixel` is modelled as a direct store that drops coordinates outside the 256x240 image. The colour blending and format conversion of raylib itself are not modelled.
- Video.Console.DrawTile: requires `tileColor < 8`. The C code would index `colors` out of bounds otherwise, and every caller passes a 3-bit hue.
- Video.Console.MemRead: the `isDbg` argument is accepted and ignored, as in the source.
- Monitor.Classify: the input line is a Dafny string. Its end stands for the C string's NUL terminator, and an embedded NUL ends the scan as in C.
