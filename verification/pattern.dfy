/**
 * Tile patterns: 16 bytes holding an 8x8 grid of 2-bit shade indices,
 * two bytes per row, four pixels per byte.
 *
 * Bytes are the integers 0..255. On such values a right shift by n is
 * division by 2^n and a mask with 2^n - 1 is the remainder modulo 2^n, so
 * the blitter's shift-and-mask `(b >> (j % 4) * 2) % 4` is bit pair (j % 4)
 * of the byte: column 0 of a byte group sits in the LEAST significant pair.
 */
module Pattern {

  /** An unsigned 8-bit value (C's `uint8_t`). */
  type Byte = b: int | 0 <= b < 256

  const PatternSize := 16
  const TileSize := 8

  /** A decoded tile: TileSize rows of TileSize shades, each in 0..3. */
  ghost predicate IsTile(tile: seq<seq<int>>)
  {
    |tile| == TileSize &&
    forall r :: 0 <= r < TileSize ==>
      |tile[r]| == TileSize && forall c :: 0 <= c < TileSize ==> 0 <= tile[r][c] < 4
  }

  /** The byte of a pattern that holds the pixel at (row, col): the two bytes
      of a row are consecutive, the first holding columns 0..3. */
  function ByteIndex(row: int, col: int): (k: int)
    requires 0 <= row < TileSize && 0 <= col < TileSize
    ensures 0 <= k < PatternSize
    ensures k / 2 == row && k % 2 == (if col < 4 then 0 else 1)
  {
    row * 2 + col / 4
  }

  /** Bit pair k of a byte (k = 0 is bits 1:0) as a number: the byte shifted
      right by 2 * k (k shifts by two), modulo 4. */
  function PairAt(b: Byte, k: int): (s: int)
    requires 0 <= k < 4
    ensures 0 <= s < 4
  {
    if k == 0 then b % 4
    else if k == 1 then b / 4 % 4
    else if k == 2 then b / 4 / 4 % 4
    else b / 4 / 4 / 4 % 4
  }

  // On an 8-bit value, masks and right shifts are remainders and quotients.

  lemma LowTwoBits(b: bv8)
    ensures (b % 4) as int == b as int % 4
  {
  }

  lemma ShiftTwo(b: bv8)
    ensures (b >> 2) as int == b as int / 4
  {
  }


  /** PairAt is the blitter's `(b >> k * 2) % 4` on an 8-bit value, for each
      of the four pairs. */
  lemma PairAtIsShift(b: bv8)
    ensures PairAt(b as int, 0) == (b % 4) as int
    ensures PairAt(b as int, 1) == ((b >> 2) % 4) as int
    ensures PairAt(b as int, 2) == ((b >> 4) % 4) as int
    ensures PairAt(b as int, 3) == ((b >> 6) % 4) as int
  {
    ShiftTwo(b);
    ShiftTwo(b >> 2);
    ShiftTwo(b >> 4);
    assert b >> 4 == (b >> 2) >> 2 && b >> 6 == (b >> 4) >> 2;
    LowTwoBits(b);
    LowTwoBits(b >> 2);
    LowTwoBits(b >> 4);
    LowTwoBits(b >> 6);
  }

  /** The shade index of the pixel at (row, col): bit pair (col % 4) of its
      byte, lowest pair first. */
  function ShadeAt(pattern: seq<Byte>, row: int, col: int): (s: int)
    requires |pattern| == PatternSize && 0 <= row < TileSize && 0 <= col < TileSize
    ensures 0 <= s < 4
  {
    PairAt(pattern[ByteIndex(row, col)], col % 4)
  }

  /** Four shades packed into one byte, the first in the lowest bit pair. */
  function Pack(s0: int, s1: int, s2: int, s3: int): (b: Byte)
    requires 0 <= s0 < 4 && 0 <= s1 < 4 && 0 <= s2 < 4 && 0 <= s3 < 4
  {
    s0 + 4 * (s1 + 4 * (s2 + 4 * s3))
  }

  /** Every pixel of a pattern, row by row. */
  function DecodeTile(pattern: seq<Byte>): (tile: seq<seq<int>>)
    requires |pattern| == PatternSize
    ensures IsTile(tile)
    ensures forall r, c :: 0 <= r < TileSize && 0 <= c < TileSize ==>
      tile[r][c] == ShadeAt(pattern, r, c)
  {
    seq(TileSize, r requires 0 <= r < TileSize =>
      seq(TileSize, c requires 0 <= c < TileSize => ShadeAt(pattern, r, c)))
  }

  /** The pattern bytes that decode to a given tile (the inverse of DecodeTile). */
  function EncodeTile(tile: seq<seq<int>>): (pattern: seq<Byte>)
    requires IsTile(tile)
    ensures |pattern| == PatternSize
  {
    seq(PatternSize, k requires 0 <= k < PatternSize =>
      var row, base := k / 2, (k % 2) * 4;
      Pack(tile[row][base], tile[row][base + 1], tile[row][base + 2], tile[row][base + 3]))
  }

  /** Extracting bit pair k of a packed byte gives back the k-th shade. */
  lemma PackedPair(s0: int, s1: int, s2: int, s3: int, k: int, s: int)
    requires 0 <= s0 < 4 && 0 <= s1 < 4 && 0 <= s2 < 4 && 0 <= s3 < 4 && 0 <= k < 4
    requires s == [s0, s1, s2, s3][k]
    ensures PairAt(Pack(s0, s1, s2, s3), k) == s
  {
    var b := Pack(s0, s1, s2, s3);
    var t1, t2 := s1 + 4 * (s2 + 4 * s3), s2 + 4 * s3;
    assert b / 4 == t1;
    assert t1 / 4 == t2;
    assert t2 / 4 == s3;
  }

  /** Re-packing the four pairs of a byte gives the byte back. */
  lemma PairsRepack(b: Byte, s0: int, s1: int, s2: int, s3: int)
    requires s0 == PairAt(b, 0) && s1 == PairAt(b, 1) && s2 == PairAt(b, 2) && s3 == PairAt(b, 3)
    ensures Pack(s0, s1, s2, s3) == b
  {
    var q1 := b / 4;
    var q2 := q1 / 4;
    var q3 := q2 / 4;
    assert b == s0 + 4 * q1;
    assert q1 == s1 + 4 * q2;
    assert q2 == s2 + 4 * q3;
    assert q3 == s3;
  }

  /** One pixel of an encoded tile decodes to its shade. */
  lemma PixelRoundTrip(tile: seq<seq<int>>, r: int, c: int)
    requires IsTile(tile) && 0 <= r < TileSize && 0 <= c < TileSize
    ensures ShadeAt(EncodeTile(tile), r, c) == tile[r][c]
  {
    var k, base := ByteIndex(r, c), if c < 4 then 0 else 4;
    assert (k % 2) * 4 == base;
    assert base + c % 4 == c;
    EncodedByte(tile, k);
    var row := tile[r];
    assert [row[base], row[base + 1], row[base + 2], row[base + 3]][c % 4] == row[c];
    PackedPair(row[base], row[base + 1], row[base + 2], row[base + 3], c % 4, row[c]);
  }

  /** Decoding an encoded tile yields the tile. */
  lemma {:induction false} DecodeEncode(tile: seq<seq<int>>)
    requires IsTile(tile)
    ensures DecodeTile(EncodeTile(tile)) == tile
  {
    var p := EncodeTile(tile);
    var d := DecodeTile(p);
    forall r, c | 0 <= r < TileSize && 0 <= c < TileSize
      ensures d[r][c] == tile[r][c]
    {
      PixelRoundTrip(tile, r, c);
    }
    forall r | 0 <= r < TileSize
      ensures d[r] == tile[r]
    {
    }
  }

  /** Pixel i of the half row that byte k of a pattern holds is its bit pair i. */
  lemma BytePixel(pattern: seq<Byte>, k: int, i: int)
    requires |pattern| == PatternSize && 0 <= k < PatternSize && 0 <= i < 4
    ensures DecodeTile(pattern)[k / 2][(k % 2) * 4 + i] == PairAt(pattern[k], i)
  {
    var r, c := k / 2, (k % 2) * 4 + i;
    assert c / 4 == k % 2 && c % 4 == i;
    assert r * 2 + c / 4 == k;
    assert DecodeTile(pattern)[r][c] == ShadeAt(pattern, r, c);
  }

  /** Byte k of an encoded tile packs the four pixels of its half row. */
  lemma EncodedByte(tile: seq<seq<int>>, k: int)
    requires IsTile(tile) && 0 <= k < PatternSize
    ensures EncodeTile(tile)[k] ==
      Pack(tile[k / 2][(k % 2) * 4], tile[k / 2][(k % 2) * 4 + 1],
           tile[k / 2][(k % 2) * 4 + 2], tile[k / 2][(k % 2) * 4 + 3])
  {
  }

  /** One byte of a re-encoded pattern equals the original byte. */
  lemma ByteRoundTrip(pattern: seq<Byte>, k: int)
    requires |pattern| == PatternSize && 0 <= k < PatternSize
    ensures EncodeTile(DecodeTile(pattern))[k] == pattern[k]
  {
    var tile := DecodeTile(pattern);
    var r, base := k / 2, (k % 2) * 4;
    EncodedByte(tile, k);
    BytePixel(pattern, k, 0);
    BytePixel(pattern, k, 1);
    BytePixel(pattern, k, 2);
    BytePixel(pattern, k, 3);
    PairsRepack(pattern[k], tile[r][base], tile[r][base + 1], tile[r][base + 2], tile[r][base + 3]);
  }

  /** Encoding a decoded pattern yields the pattern: decoding loses no bit. */
  lemma {:induction false} EncodeDecode(pattern: seq<Byte>)
    requires |pattern| == PatternSize
    ensures EncodeTile(DecodeTile(pattern)) == pattern
  {
    var e := EncodeTile(DecodeTile(pattern));
    forall k | 0 <= k < PatternSize
      ensures e[k] == pattern[k]
    {
      ByteRoundTrip(pattern, k);
    }
  }

  /** Column 0 of each byte group is bits 1:0 (the byte modulo 4) and column 3
      is bits 7:6 (the byte shifted right by 6). */
  lemma LowestPairFirst(pattern: seq<Byte>, row: int)
    requires |pattern| == PatternSize && 0 <= row < TileSize
    ensures ShadeAt(pattern, row, 0) == pattern[2 * row] % 4
    ensures ShadeAt(pattern, row, 3) == pattern[2 * row] / 64
    ensures ShadeAt(pattern, row, 4) == pattern[2 * row + 1] % 4
    ensures ShadeAt(pattern, row, 7) == pattern[2 * row + 1] / 64
  {
  }
}
