/**
 * Layout classification of an N64 ROM image (tool64.c).
 *
 * The first four header bytes are packed, most significant byte first, into
 * a 32-bit value, and that value is compared with three magic constants, one
 * per byte order: Z64 (big endian, the cartridge's own order), V64 (each
 * 16-bit word byte swapped) and N64 (each 32-bit word reversed).
 */
module Layout {

  /** An 8-bit unsigned value, as `uint8_t`. */
  type Byte = b: int | 0 <= b < 0x100

  /** 2^32: every format value is below this (`uint32_t`). */
  const Word: nat := 0x1_0000_0000

  /** The three magic values, as 32-bit numbers. */
  const N64: nat := 0x4012_3780
  const Z64: nat := 0x8037_1240
  const V64: nat := 0x3780_4012

  /** The same magic values, as the byte patterns found at offsets 0..3. */
  const Z64Magic: seq<Byte> := [0x80, 0x37, 0x12, 0x40]
  const V64Magic: seq<Byte> := [0x37, 0x80, 0x40, 0x12]
  const N64Magic: seq<Byte> := [0x40, 0x12, 0x37, 0x80]

  /** A format value the tool knows how to convert from and to. */
  predicate IsKnown(fmt: nat) {
    fmt == Z64 || fmt == V64 || fmt == N64
  }

  /**
   * The four bytes of a 32-bit value, most significant first: the inverse of
   * Format, used to state what Format reads.
   */
  function WordBytes(w: nat): (b: seq<Byte>)
    requires w < Word
    ensures |b| == 4
  {
    [w / 0x100_0000, (w / 0x1_0000) % 0x100, (w / 0x100) % 0x100, w % 0x100]
  }

  /**
   * `format`: bytes 0..3 of the header (lat, pgs1, pwd, pgs2), each shifted
   * into its own 8-bit lane of a 32-bit value and OR-ed together. The lanes
   * are disjoint, so the OR is the sum written here. Only the first four
   * bytes are read.
   */
  function Format(h: seq<Byte>): (f: nat)
    requires |h| >= 4
    ensures f < Word
    ensures WordBytes(f) == h[..4]
  {
    FormatUnpacks(h[0], h[1], h[2], h[3]);
    Pack(h[0], h[1], h[2], h[3])
  }

  /** Unpacking the packed value gives back each of the four bytes. */
  lemma FormatUnpacks(b0: Byte, b1: Byte, b2: Byte, b3: Byte)
    ensures Pack(b0, b1, b2, b3) < Word
    ensures WordBytes(Pack(b0, b1, b2, b3)) == [b0, b1, b2, b3]
  {
    var hi := b0 as int * 0x100 + b1 as int;
    var lo := b2 as int * 0x100 + b3 as int;
    var top := hi * 0x100 + b2 as int;
    assert Pack(b0, b1, b2, b3) == b0 as int * 0x100_0000 + (b1 as int * 0x1_0000 + lo);
    assert Pack(b0, b1, b2, b3) == hi * 0x1_0000 + lo;
    assert Pack(b0, b1, b2, b3) == top * 0x100 + b3 as int;
    SplitAt(Pack(b0, b1, b2, b3), 0x100_0000, b0 as int, b1 as int * 0x1_0000 + lo);
    SplitAt(Pack(b0, b1, b2, b3), 0x1_0000, hi, lo);
    SplitAt(hi, 0x100, b0 as int, b1 as int);
    SplitAt(Pack(b0, b1, b2, b3), 0x100, top, b3 as int);
    SplitAt(top, 0x100, hi, b2 as int);
  }

  /** Division by a power of 256 recovers the quotient and the remainder. */
  lemma SplitAt(n: int, d: int, q: int, r: int)
    requires d == 0x100 || d == 0x1_0000 || d == 0x100_0000
    requires 0 <= r < d && n == q * d + r
    ensures n / d == q && n % d == r
  {
    if d == 0x100 {
      assert n == q * 0x100 + r;
    } else if d == 0x1_0000 {
      assert n == q * 0x1_0000 + r;
    } else {
      assert n == q * 0x100_0000 + r;
    }
  }

  /** The packed 32-bit value of four bytes, most significant first. */
  function Pack(b0: Byte, b1: Byte, b2: Byte, b3: Byte): (n: nat)
    ensures n < Word
  {
    b0 as int * 0x100_0000 + b1 as int * 0x1_0000 + b2 as int * 0x100 + b3 as int
  }

  /** Packing the bytes of a 32-bit value gives back the value. */
  lemma PackWordBytes(w: nat)
    requires w < Word
    ensures Pack(WordBytes(w)[0], WordBytes(w)[1], WordBytes(w)[2], WordBytes(w)[3]) == w
  {
    var a, b3 := w / 0x100, w % 0x100;
    var c, b2 := a / 0x100, a % 0x100;
    var b0, b1 := c / 0x100, c % 0x100;
    assert w == (b0 * 0x100_0000 + b1 * 0x1_0000) + (b2 * 0x100 + b3);
    SplitAt(w, 0x1_0000, c, b2 * 0x100 + b3);
    SplitAt(w, 0x100_0000, b0, b1 * 0x1_0000 + b2 * 0x100 + b3);
  }

  /**
   * Format reads exactly the bytes 0..3: two headers classify alike if and
   * only if they agree on their first four bytes, and every 32-bit value is
   * the format of its own byte pattern.
   */
  lemma {:induction false} FormatDeterminedByMagic(h: seq<Byte>, w: nat)
    requires |h| >= 4 && w < Word
    ensures Format(h) == w <==> h[..4] == WordBytes(w)
  {
    if h[..4] == WordBytes(w) {
      var b := WordBytes(w);
      PackWordBytes(w);
      assert Format(h) == Pack(b[0], b[1], b[2], b[3]);
    }
  }

  /**
   * The classification the source performs: the packed value equals Z64, V64
   * or N64 exactly when the first four bytes are that format's magic pattern.
   */
  lemma ClassifyMagic(h: seq<Byte>)
    requires |h| >= 4
    ensures Format(h) == Z64 <==> h[..4] == Z64Magic
    ensures Format(h) == V64 <==> h[..4] == V64Magic
    ensures Format(h) == N64 <==> h[..4] == N64Magic
    ensures Format(h) == 0 <==> h[..4] == [0, 0, 0, 0]
  {
    FormatDeterminedByMagic(h, Z64);
    FormatDeterminedByMagic(h, V64);
    FormatDeterminedByMagic(h, N64);
    FormatDeterminedByMagic(h, 0);
  }

  /**
   * `format_str`: the name of a format value. N64 is the "Little Endian"
   * layout, V64 "Byte Swapped", Z64 "Big Endian"; 0 is "NULL" and every
   * other value "Unknown". The diagnostic printf of the default branch is
   * left out.
   */
  function FormatStr(fmt: nat): (name: string)
    ensures name == "Big Endian" <==> fmt == Z64
    ensures name == "Byte Swapped" <==> fmt == V64
    ensures name == "Little Endian" <==> fmt == N64
    ensures name == "NULL" <==> fmt == 0
    ensures name == "Unknown" <==> !IsKnown(fmt) && fmt != 0
  {
    if fmt == N64 then "Little Endian"
    else if fmt == V64 then "Byte Swapped"
    else if fmt == Z64 then "Big Endian"
    else if fmt == 0 then "NULL"
    else "Unknown"
  }

  /** The name reported for a header follows from its first four bytes alone. */
  lemma HeaderFormatName(h: seq<Byte>)
    requires |h| >= 4
    ensures FormatStr(Format(h)) == "Big Endian" <==> h[..4] == Z64Magic
    ensures FormatStr(Format(h)) == "Byte Swapped" <==> h[..4] == V64Magic
    ensures FormatStr(Format(h)) == "Little Endian" <==> h[..4] == N64Magic
    ensures FormatStr(Format(h)) == "NULL" <==> h[..4] == [0, 0, 0, 0]
  {
    ClassifyMagic(h);
  }
}
