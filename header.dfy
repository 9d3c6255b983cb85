/**
 * The 64-byte cartridge header of an N64 ROM (`rom_header_t` in tool64.c):
 * fields at fixed byte offsets. Offsets never change between layouts; only
 * the order of the bytes inside each word does.
 */
module Header {
  import opened Layout
  import opened Swaps

  /** Size of the header region, `sizeof(rom_header_t)`. */
  const HeaderSize: nat := 64

  /** The fields of `rom_header_t`, in declaration order. */
  datatype Field =
    | Lat | Pgs1 | Pwd | Pgs2
    | ClockRate | ProgramCounter | Release | Crc1 | Crc2
    | Unk1 | Name | Unk2 | Manufacturer
    | CartridgeId | CountryCode | Version

  /** All fields, in the order they are laid out. */
  const Fields: seq<Field> := [
    Lat, Pgs1, Pwd, Pgs2,
    ClockRate, ProgramCounter, Release, Crc1, Crc2,
    Unk1, Name, Unk2, Manufacturer,
    CartridgeId, CountryCode, Version
  ]

  /** Size of a field in bytes. */
  function Width(f: Field): nat {
    match f
    case Lat | Pgs1 | Pwd | Pgs2 | CountryCode | Version => 1
    case CartridgeId => 2
    case ClockRate | ProgramCounter | Release | Crc1 | Crc2 | Unk2 | Manufacturer => 4
    case Unk1 => 8
    case Name => 20
  }

  /** Byte offset of a field from the start of the header. */
  function Offset(f: Field): nat {
    match f
    case Lat => 0x00
    case Pgs1 => 0x01
    case Pwd => 0x02
    case Pgs2 => 0x03
    case ClockRate => 0x04
    case ProgramCounter => 0x08
    case Release => 0x0C
    case Crc1 => 0x10
    case Crc2 => 0x14
    case Unk1 => 0x18
    case Name => 0x20
    case Unk2 => 0x34
    case Manufacturer => 0x38
    case CartridgeId => 0x3C
    case CountryCode => 0x3E
    case Version => 0x3F
  }

  /**
   * The fields tile the header with no gap and no padding: each starts where
   * the previous one ends, the first at 0, the last ending at 64; and every
   * field of 4 bytes or more starts on a 32-bit boundary.
   */
  lemma HeaderLayout()
    ensures Offset(Fields[0]) == 0
    ensures Offset(Fields[|Fields| - 1]) + Width(Fields[|Fields| - 1]) == HeaderSize
    ensures forall k :: 0 <= k < |Fields| - 1 ==> Offset(Fields[k + 1]) == Offset(Fields[k]) + Width(Fields[k])
    ensures forall f :: Width(f) >= 4 ==> Offset(f) % 4 == 0 && Width(f) % 4 == 0
  {
  }

  /** The magic bytes read by Format are the first four fields, one byte each. */
  lemma MagicFields()
    ensures Offset(Lat) == 0 && Offset(Pgs1) == 1 && Offset(Pwd) == 2 && Offset(Pgs2) == 3
    ensures Width(Lat) == 1 && Width(Pgs1) == 1 && Width(Pwd) == 1 && Width(Pgs2) == 1
  {
  }

  /** The bytes of a field, in the order they are stored. */
  function ReadField(h: seq<Byte>, f: Field): (r: seq<Byte>)
    requires Offset(f) + Width(f) <= |h|
    ensures |r| == Width(f)
  {
    h[Offset(f)..Offset(f) + Width(f)]
  }

  /** A double-word swap reverses the bytes of the word starting at 4 * w. */
  lemma DWordSwapReversesWord(h: seq<Byte>, w: nat)
    requires 4 * w + 4 <= |h|
    ensures |DWordSwapped(h)| == |h|
    ensures DWordSwapped(h)[4 * w..4 * w + 4] == [h[4 * w + 3], h[4 * w + 2], h[4 * w + 1], h[4 * w]]
  {
    DWordSwappedWord(h, w, 0);
    DWordSwappedWord(h, w, 1);
    DWordSwappedWord(h, w, 2);
    DWordSwappedWord(h, w, 3);
  }

  /**
   * Reversing every 32-bit word of a buffer reverses each 32-bit field of its
   * header in place: a field stored AA BB CC DD reads DD CC BB AA afterwards.
   */
  lemma DWordSwapReversesField(h: seq<Byte>, f: Field)
    requires Width(f) == 4 && Offset(f) + 4 <= |h|
    ensures |DWordSwapped(h)| == |h|
    ensures ReadField(DWordSwapped(h), f) == [h[Offset(f) + 3], h[Offset(f) + 2], h[Offset(f) + 1], h[Offset(f)]]
  {
    HeaderLayout();
    DWordSwapReversesWord(h, Offset(f) / 4);
  }

  /**
   * Swapping the bytes of every 16-bit word exchanges the two bytes of each
   * 16-bit field, and exchanges the one-byte country code and version, which
   * share the header's last word.
   */
  lemma WordSwapExchangesTail(h: seq<Byte>)
    requires |h| >= HeaderSize
    ensures |WordSwapped(h)| == |h|
    ensures ReadField(WordSwapped(h), CartridgeId) == [h[0x3D], h[0x3C]]
    ensures ReadField(WordSwapped(h), CountryCode) == ReadField(h, Version)
    ensures ReadField(WordSwapped(h), Version) == ReadField(h, CountryCode)
  {
    WordSwappedAt(h, 0x3C);
    WordSwappedAt(h, 0x3D);
    WordSwappedAt(h, 0x3E);
    WordSwappedAt(h, 0x3F);
  }

  /** Country codes that `country_str` names. */
  const CountryCodes: set<Byte> := {
    0x37, 0x41, 0x42, 0x43, 0x44, 0x45, 0x46, 0x47, 0x48, 0x49,
    0x4A, 0x4B, 0x4C, 0x4E, 0x50, 0x53, 0x55, 0x57, 0x58, 0x59
  }

  /** `country_str`: the region named by the header's country code byte. */
  function CountryName(c: Byte): (name: string)
    ensures name == "Unknown" <==> c !in CountryCodes
    ensures name == "Europe" <==> c == 0x50 || c == 0x58 || c == 0x59
  {
    match c
    case 0x37 => "Beta"
    case 0x41 => "Asia (NTSC)"
    case 0x42 => "Brazil"
    case 0x43 => "China"
    case 0x44 => "Germany"
    case 0x45 => "North America"
    case 0x46 => "France"
    case 0x47 => "Gateway 64 (NTSC)"
    case 0x48 => "Netherlands"
    case 0x49 => "Italy"
    case 0x4A => "Japan"
    case 0x4B => "Korean"
    case 0x4C => "Gateway 64 (PAL)"
    case 0x4E => "Canada"
    case 0x50 => "Europe"
    case 0x53 => "Spain"
    case 0x55 => "Australia"
    case 0x57 => "Scandinavia"
    case 0x58 => "Europe"
    case 0x59 => "Europe"
    case _ => "Unknown"
  }
}
