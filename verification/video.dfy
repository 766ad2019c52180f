/**
 * The background video pipeline: the 64 KiB address space, the tile blitter
 * and the background compositor that turns the nametable, the background
 * pattern table and the palette-select byte into a 256x240 frame.
 */
module Video {
  import opened Pattern
  import opened Palette

  const MemSize := 0x10000

  // Reserved regions of the address space.
  const PMF := 0x4000     // foreground pattern table, 32 patterns
  const PMB := 0x4200     // background pattern table, 32 patterns
  const NTBL := 0x4400    // nametable, 30 rows of 32 entries
  const BG_PAL := 0x47C0  // background palette select byte
  const OBM := 0x4800     // object table, 64 entries of 4 bytes
  const TXBL := 0x4900    // text table, 30 rows of 32 entries

  const Width := 256
  const Height := 240
  const GridRows := 30
  const GridCols := 32
  const PatternCount := 32

  /** A cell of the 30x32 background grid. */
  datatype GridCell = GridCell(row: int, col: int)
  {
    predicate Valid()
    {
      0 <= row < GridRows && 0 <= col < GridCols
    }
  }

  /** One DrawTile call of the compositor: the grid cell, the pattern bytes
      and the hue it passes. */
  datatype TileJob = TileJob(cell: GridCell, pattern: seq<Byte>, hue: int)
  {
    /** The corner of the cell's 8x8 block in the frame. */
    function X(): int { cell.col * 8 }
    function Y(): int { cell.row * 8 }
  }

  /** A 16-bit address. */
  type Addr = a: int | 0 <= a < MemSize

  /** The regions follow one another without overlapping and the palette
      select byte sits right after the last nametable entry. */
  lemma RegionLayout()
    ensures PMF + PatternCount * PatternSize == PMB
    ensures PMB + PatternCount * PatternSize == NTBL
    ensures NTBL + GridRows * GridCols == BG_PAL
    ensures BG_PAL < OBM && OBM + 64 * 4 == TXBL
    ensures TXBL + GridRows * GridCols <= MemSize
    ensures GridCols * TileSize == Width && GridRows * TileSize == Height
  {
  }

  /** The hue of a background tile: bit 7 of the entry picks bits 5:3 or
      bits 2:0 of the palette select byte. */
  function TileHue(bgPal: Byte, entry: Byte): (h: int)
    ensures 0 <= h < Hues
  {
    var bgColor0 := bgPal % 8;      // bgPal & 0b111
    var bgColor1 := bgPal / 8 % 8;  // (bgPal >> 3) & 0b111
    if entry >= 128 then bgColor1 else bgColor0  // entry & 0x80
  }

  /** The background pattern an entry names: its low five bits. */
  function PatternIndex(entry: Byte): (p: int)
    ensures 0 <= p < PatternCount
  {
    entry % 32  // entry & 0x1F
  }

  // The arithmetic above is the emulator's bit arithmetic on `uint8_t`.

  lemma LowThreeBits(b: bv8)
    ensures (b & 0x07) as int == b as int % 8
  {
  }

  lemma ShiftThree(b: bv8)
    ensures (b >> 3) as int == b as int / 8
  {
  }

  lemma TopBit(b: bv8)
    ensures (b & 0x80 != 0) == (b as int >= 128)
  {
  }

  lemma LowFiveBits(b: bv8)
    ensures (b & 0x1F) as int == b as int % 32
  {
  }

  /** TileHue and PatternIndex agree with the emulator's expressions on
      8-bit values. */
  lemma SelectorsMatchBitOps(bgPal: bv8, entry: bv8)
    ensures TileHue(bgPal as int, entry as int) ==
      (if entry & 0x80 != 0 then (bgPal >> 3) & 0x07 else bgPal & 0x07) as int
    ensures PatternIndex(entry as int) == (entry & 0x1F) as int
  {
    LowThreeBits(bgPal);
    ShiftThree(bgPal);
    LowThreeBits(bgPal >> 3);
    TopBit(entry);
    LowFiveBits(entry);
  }

  /** Address of the nametable entry of grid cell (row, col), row-major. */
  function NametableAddr(row: int, col: int): (a: int)
    requires 0 <= row < GridRows && 0 <= col < GridCols
    ensures NTBL <= a < BG_PAL
    ensures (a - NTBL) / 32 == row && (a - NTBL) % 32 == col
  {
    NTBL + 32 * row + col
  }

  /** Address of the first byte of background pattern `index`. */
  function PatternAddr(index: int): (a: int)
    requires 0 <= index < PatternCount
    ensures PMB <= a && a + PatternSize <= NTBL
    ensures (a - PMB) % 16 == 0 && (a - PMB) / 16 == index
  {
    PMB + 16 * index
  }

  /** The nametable entry of the tile that covers pixel (x, y). */
  function EntryAt(mem: seq<Byte>, x: int, y: int): (e: Byte)
    requires |mem| == MemSize && 0 <= x < Width && 0 <= y < Height
    ensures e == mem[NTBL + 32 * (y / 8) + x / 8]
  {
    mem[NametableAddr(y / 8, x / 8)]
  }

  /** The 16 pattern bytes of background pattern `index`. */
  function BackgroundPattern(mem: seq<Byte>, index: int): (p: seq<Byte>)
    requires |mem| == MemSize && 0 <= index < PatternCount
    ensures |p| == PatternSize
    ensures forall k :: 0 <= k < PatternSize ==> p[k] == mem[PMB + 16 * index + k]
  {
    mem[PatternAddr(index)..PatternAddr(index) + PatternSize]
  }

  /** The hue the background compositor uses at pixel (x, y). */
  function BackgroundHue(mem: seq<Byte>, x: int, y: int): (h: int)
    requires |mem| == MemSize && 0 <= x < Width && 0 <= y < Height
    ensures 0 <= h < Hues
  {
    TileHue(mem[BG_PAL], EntryAt(mem, x, y))
  }

  /** The shade the background compositor uses at pixel (x, y). */
  function BackgroundShade(mem: seq<Byte>, x: int, y: int): (s: int)
    requires |mem| == MemSize && 0 <= x < Width && 0 <= y < Height
    ensures 0 <= s < Shades
  {
    ShadeAt(BackgroundPattern(mem, PatternIndex(EntryAt(mem, x, y))), y % 8, x % 8)
  }

  /** Two nametable entries that agree on bit 7 and bits 4:0, and so differ
      at most in bits 6:5 (the flip bits of the entry format). */
  predicate SameTile(e: Byte, e': Byte)
  {
    e / 128 == e' / 128 && e % 32 == e' % 32
  }

  /** Bits 6:5 of an entry select nothing: entries that differ only there
      draw the same hue and pattern. */
  lemma FlipBitsIgnored(bgPal: Byte, e: Byte, e': Byte)
    requires SameTile(e, e')
    ensures TileHue(bgPal, e) == TileHue(bgPal, e')
    ensures PatternIndex(e) == PatternIndex(e')
  {
  }

  /** The composited background is a function of the background pattern
      table, the palette select byte and bits 7 and 4:0 of each nametable
      entry: every other byte and bit of memory can change without changing
      any pixel's hue or shade. */
  lemma {:induction false} BackgroundDependsOnlyOnVideoState(mem: seq<Byte>, mem': seq<Byte>)
    requires |mem| == MemSize && |mem'| == MemSize
    requires forall a :: PMB <= a < NTBL ==> mem[a] == mem'[a]
    requires forall a :: NTBL <= a < BG_PAL ==> SameTile(mem[a], mem'[a])
    requires mem[BG_PAL] == mem'[BG_PAL]
    ensures forall x, y :: 0 <= x < Width && 0 <= y < Height ==>
      BackgroundHue(mem, x, y) == BackgroundHue(mem', x, y) &&
      BackgroundShade(mem, x, y) == BackgroundShade(mem', x, y)
  {
    forall x, y | 0 <= x < Width && 0 <= y < Height
      ensures BackgroundHue(mem, x, y) == BackgroundHue(mem', x, y)
      ensures BackgroundShade(mem, x, y) == BackgroundShade(mem', x, y)
    {
      var e, e' := EntryAt(mem, x, y), EntryAt(mem', x, y);
      FlipBitsIgnored(mem[BG_PAL], e, e');
      var index := PatternIndex(e);
      assert BackgroundPattern(mem, index) == BackgroundPattern(mem', index);
    }
  }

  /** The 30x32 grid of 8x8 tiles at (8 * col, 8 * row) lies inside the
      frame and covers each pixel exactly once: pixel (x, y) belongs to the
      tile in row y / 8 and column x / 8 and to no other. */
  lemma {:induction false} TilesPartitionFrame(x: int, y: int)
    requires 0 <= x < Width && 0 <= y < Height
    ensures 0 <= y / 8 < GridRows && 0 <= x / 8 < GridCols
    ensures forall row, col :: 0 <= row < GridRows && 0 <= col < GridCols ==>
      (8 * col <= x < 8 * col + 8 && 8 * row <= y < 8 * row + 8
       <==> row == y / 8 && col == x / 8)
  {
    forall row, col | 0 <= row < GridRows && 0 <= col < GridCols
      ensures 8 * col <= x < 8 * col + 8 && 8 * row <= y < 8 * row + 8
              <==> row == y / 8 && col == x / 8
    {
      InTile(x, col);
      InTile(y, row);
    }
  }

  /** Grid cell (row, col) is drawn with its corner at (8 * col, 8 * row):
      each pixel of that block gets the hue of the cell's nametable entry and
      the shade of the entry's pattern at the pixel's offset in the block. */
  lemma TileAt(mem: seq<Byte>, row: int, col: int, x: int, y: int)
    requires |mem| == MemSize && 0 <= row < GridRows && 0 <= col < GridCols
    requires 8 * col <= x < 8 * col + 8 && 8 * row <= y < 8 * row + 8
    ensures 0 <= x < Width && 0 <= y < Height
    ensures EntryAt(mem, x, y) == mem[NTBL + 32 * row + col]
    ensures BackgroundHue(mem, x, y) == TileHue(mem[BG_PAL], mem[NTBL + 32 * row + col])
    ensures BackgroundShade(mem, x, y) ==
      ShadeAt(BackgroundPattern(mem, PatternIndex(mem[NTBL + 32 * row + col])),
              y - 8 * row, x - 8 * col)
  {
    InTile(x, col);
    InTile(y, row);
  }

  /** Coordinate p lies in the tile starting at 8 * k exactly when p / 8 == k. */
  lemma InTile(p: int, k: int)
    requires 0 <= p
    ensures 8 * k <= p < 8 * k + 8 <==> p / 8 == k
  {
  }

  /**
   * The emulator's global state: the address space, the colour table and
   * the image the compositor draws into. The array references never change;
   * their contents do.
   */
  class Console {
    const memory: array<Byte>
    const colors: array2<Color>
    const image: array2<Color>

    ghost predicate Valid()
    {
      memory.Length == MemSize &&
      colors.Length0 == Hues && colors.Length1 == Shades &&
      image.Length0 == Width && image.Length1 == Height &&
      colors != image
    }

    /** Start-up with a loaded memory image: memory holds the image, the
        frame is black and the colour table is built. */
    constructor (contents: seq<Byte>)
      requires |contents| == MemSize
      ensures Valid()
      ensures fresh(memory) && fresh(colors) && fresh(image)
      ensures memory[..] == contents
      ensures forall i, j :: 0 <= i < Hues && 0 <= j < Shades ==> colors[i, j] == PaletteEntry(i, j)
      ensures forall x, y :: 0 <= x < Width && 0 <= y < Height ==> image[x, y] == Black
    {
      memory := new Byte[MemSize](i requires 0 <= i < MemSize => contents[i]);
      image := new Color[Width, Height]((x, y) => Black);
      var table := new Color[Hues, Shades]((i, j) => Color(0, 0, 0, 0));
      SetupPalette(table);
      colors := table;
    }

    /** The CPU's read hook: the byte stored at a 16-bit address; the debug
        flag does not matter. */
    function MemRead(addr: Addr, isDbg: bool): (v: Byte)
      requires Valid()
      reads memory
      ensures v == memory[..][addr]
    {
      memory[addr]
    }

    /** The CPU's write hook: afterwards the address reads back the value
        and every other address reads as before. */
    method MemWrite(addr: Addr, val: Byte)
      requires Valid()
      modifies memory
      ensures memory[..] == old(memory[..])[addr := val]
      ensures MemRead(addr, false) == val
      ensures forall a: Addr :: a != addr ==> MemRead(a, false) == old(MemRead(a, false))
    {
      memory[addr] := val;
    }

    /** Pixel (px, py) lies in the 8x8 block whose corner is (x, y). */
    static predicate InBlock(x: int, y: int, px: int, py: int)
    {
      x <= px < x + 8 && y <= py < y + 8
    }

    /** Since the previous state, exactly the pixels of the 8x8 block at
        (x, y) that lie in the frame have changed, each to colour
        (tileColor, its shade in the pattern). */
    twostate predicate Blitted(x: int, y: int, pattern: seq<Byte>, tileColor: int)
      requires Valid() && |pattern| == PatternSize && 0 <= tileColor < Hues
      reads image, colors
    {
      forall px, py {:trigger image[px, py]} :: 0 <= px < Width && 0 <= py < Height ==>
        image[px, py] == if InBlock(x, y, px, py)
                         then colors[tileColor, ShadeAt(pattern, py - y, px - x)]
                         else old(image[px, py])
    }

    /** Blits one tile with its corner at (x, y): every pixel of the 8x8 block
        that lies inside the frame gets colour (tileColor, shade); pixels
        outside the frame are dropped and no other pixel changes. */
    method DrawTile(x: Byte, y: Byte, pattern: seq<Byte>, tileColor: int)
      requires Valid()
      requires |pattern| == PatternSize && 0 <= tileColor < Hues
      modifies image
      ensures Blitted(x, y, pattern, tileColor)
    {
      for i := 0 to TileSize
        invariant forall px, py :: 0 <= px < Width && 0 <= py < Height ==>
          image[px, py] == if InBlock(x, y, px, py) && py < y + i
                           then colors[tileColor, ShadeAt(pattern, py - y, px - x)]
                           else old(image[px, py])
      {
        for j := 0 to TileSize
          invariant forall px, py :: 0 <= px < Width && 0 <= py < Height ==>
            image[px, py] == if InBlock(x, y, px, py) && (py < y + i || (py == y + i && px < x + j))
                             then colors[tileColor, ShadeAt(pattern, py - y, px - x)]
                             else old(image[px, py])
        {
          var pixelShade := ShadeAt(pattern, i, j);
          var pixelColor := colors[tileColor, pixelShade];
          // raylib's ImageDrawPixel ignores coordinates outside the image.
          if x + j < Width && y + i < Height {
            image[x + j, y + i] := pixelColor;
          }
        }
      }
    }

    /** Pixel (x, y) of the frame shows the background colour that `mem`
        and the colour table select for it. */
    ghost predicate ShowsBackground(mem: seq<Byte>, x: int, y: int)
      requires Valid() && |mem| == MemSize && 0 <= x < Width && 0 <= y < Height
      reads image, colors
    {
      image[x, y] == colors[BackgroundHue(mem, x, y), BackgroundShade(mem, x, y)]
    }

    /** The compositor has drawn every tile in rows above `row` and every tile
        left of `col` in row `row`; (x, y) lies in one of them. */
    static ghost predicate Painted(row: int, col: int, x: int, y: int)
    {
      y / 8 < row || (y / 8 == row && x / 8 < col)
    }

    /** Every pixel of the tiles drawn before grid cell (row, col) shows its
        background colour. */
    ghost predicate PaintedUpTo(row: int, col: int)
      requires Valid()
      reads this, memory, image, colors
    {
      forall x, y :: 0 <= x < Width && 0 <= y < Height && Painted(row, col, x, y) ==>
        ShowsBackground(memory[..], x, y)
    }

    /** Finishing the last cell of a row is starting the next row. */
    lemma NextRow(row: int)
      requires Valid() && PaintedUpTo(row, GridCols)
      ensures PaintedUpTo(row + 1, 0)
    {
      forall x, y | 0 <= x < Width && 0 <= y < Height && Painted(row + 1, 0, x, y)
        ensures ShowsBackground(memory[..], x, y)
      {
        assert Painted(row, GridCols, x, y);
      }
    }

    /** Once every row is drawn, every pixel shows its background colour. */
    lemma AllPainted()
      requires Valid() && PaintedUpTo(GridRows, 0)
      ensures forall x, y :: 0 <= x < Width && 0 <= y < Height ==>
        image[x, y] == colors[BackgroundHue(memory[..], x, y), BackgroundShade(memory[..], x, y)]
    {
      forall x, y | 0 <= x < Width && 0 <= y < Height
        ensures image[x, y] == colors[BackgroundHue(memory[..], x, y), BackgroundShade(memory[..], x, y)]
      {
        assert Painted(GridRows, 0, x, y);
        assert ShowsBackground(memory[..], x, y);
      }
    }

    /** A pixel of the block of grid cell (row, col) that holds the colour of
        the hue and pattern the cell's nametable entry selects shows its
        background colour. */
    lemma BlockPixel(job: TileJob, x: int, y: int)
      requires Valid() && job.cell.Valid() && |job.pattern| == PatternSize
      requires job.pattern == BackgroundPattern(memory[..], PatternIndex(memory[NTBL + 32 * job.cell.row + job.cell.col]))
      requires job.hue == TileHue(memory[BG_PAL], memory[NTBL + 32 * job.cell.row + job.cell.col])
      requires 0 <= x < Width && 0 <= y < Height && InBlock(job.X(), job.Y(), x, y)
      requires image[x, y] == colors[job.hue, ShadeAt(job.pattern, y - job.Y(), x - job.X())]
      ensures ShowsBackground(memory[..], x, y)
    {
      TileAt(memory[..], job.cell.row, job.cell.col, x, y);
    }

    /** Drawing the tile of grid cell (row, col) with the pattern and hue its
        nametable entry selects extends the painted part of the frame by that
        cell. */
    twostate lemma TilePainted(job: TileJob)
      requires Valid() && job.cell.Valid() && |job.pattern| == PatternSize
      requires unchanged(memory, colors) && old(PaintedUpTo(job.cell.row, job.cell.col))
      requires job.pattern == BackgroundPattern(memory[..], PatternIndex(memory[NTBL + 32 * job.cell.row + job.cell.col]))
      requires job.hue == TileHue(memory[BG_PAL], memory[NTBL + 32 * job.cell.row + job.cell.col])
      requires 0 <= job.hue < Hues && Blitted(job.X(), job.Y(), job.pattern, job.hue)
      ensures PaintedUpTo(job.cell.row, job.cell.col + 1)
    {
      var mem, row, col := memory[..], job.cell.row, job.cell.col;
      assert old(memory[..]) == mem;
      forall x, y | 0 <= x < Width && 0 <= y < Height && Painted(row, col + 1, x, y)
        ensures ShowsBackground(mem, x, y)
      {
        if InBlock(job.X(), job.Y(), x, y) {
          BlockPixel(job, x, y);
        } else {
          InTile(x, col);
          InTile(y, row);
          assert Painted(row, col, x, y);
          assert old(ShowsBackground(mem, x, y));
        }
      }
    }

    /** The lookups of one pass of the compositor's inner loop: the nametable
        entry of grid cell (i, j), the hue its bit 7 selects and the 16 bytes
        of the background pattern its bits 4:0 select. */
    method FetchCell(i: int, j: int, bgColor0: int, bgColor1: int) returns (job: TileJob)
      requires Valid() && 0 <= i < GridRows && 0 <= j < GridCols
      requires bgColor0 == memory[BG_PAL] % 8 && bgColor1 == memory[BG_PAL] / 8 % 8
      ensures job.cell == GridCell(i, j) && |job.pattern| == PatternSize && 0 <= job.hue < Hues
      ensures job.pattern == BackgroundPattern(memory[..], PatternIndex(memory[NTBL + 32 * i + j]))
      ensures job.hue == TileHue(memory[BG_PAL], memory[NTBL + 32 * i + j])
    {
      var entry := memory[NTBL + 32 * i + j];
      var tileColor := if entry >= 128 then bgColor1 else bgColor0;  // entry & 0x80
      var index: int := entry % 32;                                  // entry & 0x1F
      var base: int := PMB + 16 * index;
      var pattern := memory[base..base + PatternSize];
      assert pattern == BackgroundPattern(memory[..], PatternIndex(entry));
      job := TileJob(GridCell(i, j), pattern, tileColor);
    }

    /** One pass of the compositor's inner loop: draws the tile of grid cell
        (i, j) at (8 * j, 8 * i), which extends the painted part of the frame
        by that cell; no pixel outside that block changes. */
    method DrawCell(i: int, j: int, bgColor0: int, bgColor1: int)
      requires Valid() && 0 <= i < GridRows && 0 <= j < GridCols
      requires bgColor0 == memory[BG_PAL] % 8 && bgColor1 == memory[BG_PAL] / 8 % 8
      requires PaintedUpTo(i, j)
      modifies image
      ensures PaintedUpTo(i, j + 1)
      ensures forall px, py :: 0 <= px < Width && 0 <= py < Height && !InBlock(8 * j, 8 * i, px, py) ==>
        image[px, py] == old(image[px, py])
    {
      var job := FetchCell(i, j, bgColor0, bgColor1);
      label BeforeTile:
      DrawTile(job.X(), job.Y(), job.pattern, job.hue);
      TilePainted@BeforeTile(job);
    }

    /** Composites the background: afterwards every pixel of the frame has the
        colour its tile's hue and decoded shade select; memory is untouched. */
    method RenderFromVRAM()
      requires Valid()
      modifies image
      ensures forall x, y :: 0 <= x < Width && 0 <= y < Height ==>
        image[x, y] == colors[BackgroundHue(memory[..], x, y), BackgroundShade(memory[..], x, y)]
    {
      var bgColor0 := memory[BG_PAL] % 8;
      var bgColor1 := memory[BG_PAL] / 8 % 8;

      for i := 0 to GridRows
        invariant PaintedUpTo(i, 0)
      {
        for j := 0 to GridCols
          invariant PaintedUpTo(i, j)
        {
          DrawCell(i, j, bgColor0, bgColor1);
        }
        NextRow(i);
      }
      AllPainted();
    }
  }
}
