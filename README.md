# tool64 byte-order engine, modelled in Dafny

tool64 prints the header of a Nintendo 64 cartridge ROM image and converts
the image between the three byte orders ROM dumps come in:

- **Z64**: big endian, the cartridge's own order. Magic `80 37 12 40`.
- **V64**: every 16-bit word byte swapped. Magic `37 80 40 12`.
- **N64**: every 32-bit word reversed, called "Little Endian" by the tool.
  Magic `40 12 37 80`.

This project models the part of tool64 that does the work:

- the classification of the first four header bytes into a 32-bit format value;
- the in-place swaps `swap`, `wordswap` and `dwordswap`;
- the conversion pipeline of `convert` and `load_rom`, without its file I/O;
- the 64-byte header layout;
- the string helpers `ext` and `downcase`, and the command selection of `main`.

Files, one module each:

- `layout.dfy` (`Layout`): bytes, the magic constants, `format`, `format_str`.
- `swaps.dfy` (`Swaps`): the swap specifications `WordSwapped` and
  `DWordSwapped` on sequences, their lemmas, and the in-place methods on
  `array<Byte>`.
- `header.dfy` (`Header`): the `rom_header_t` field offsets, what the swaps
  do to header fields, and `country_str`.
- `conversion.dfy` (`Conversion`): the conversion pipeline as a function
  (`ConvertedImage`) with its properties, and the in-place methods
  `Convert`, proved against `ConvertedImage`, and `LoadRom`, proved against
  the per-format swap `Transform`.
- `text.dfy` (`Text`): `ext`, `downcase` and the command selection.

A format value is kept as the raw 32-bit number, as in the source. A
conversion with an unrecognised source is therefore modelled as the code runs
it: there is no normalising swap, and only the target's swap is applied.

## Model

| member | source | states |
|---|---|---|
| `Layout.Format` | tool64.c:105-114 | The format is a 32-bit value whose big-endian bytes are exactly header bytes 0..3. |
| `Layout.Pack` | tool64.c:108-111 | The four bytes or-ed together at shifts 24, 16, 8 and 0. The value is below 2^32. |
| `Layout.WordBytes` | tool64.c:108-111 | The four bytes of a 32-bit value, most significant first. It is the inverse of `Pack` (see `FormatUnpacks` and `PackWordBytes`). |
| `Layout.FormatUnpacks` | tool64.c:108-111 | Packing four bytes most significant first gives a value below 2^32 that unpacks to the same four bytes. |
| `Layout.PackWordBytes` | tool64.c:105-114 | Packing the four big-endian bytes of any 32-bit value gives that value back. |
| `Layout.FormatDeterminedByMagic` | tool64.c:105-114 | A header's format equals a 32-bit value w if and only if its first four bytes are w's bytes, most significant first. |
| `Layout.ClassifyMagic` | tool64.c:9-11 | The format equals Z64, V64, N64 or 0 if and only if bytes 0..3 are `80 37 12 40`, `37 80 40 12`, `40 12 37 80` or all zero. |
| `Layout.FormatStr` | tool64.c:116-130 | Each name is returned for exactly one case: "Big Endian" for Z64, "Byte Swapped" for V64, "Little Endian" for N64, "NULL" for 0, and "Unknown" for every other value. |
| `Layout.HeaderFormatName` | tool64.c:116-130 | The name reported for a header is determined by its magic bytes, with both directions for each name. |
| `Swaps.WordPartner` | tool64.c:359-364 | The partner index lies in the same 16-bit word and differs from the index (i XOR 1). |
| `Swaps.DWordPartner` | tool64.c:366-372 | The partner index lies in the same 32-bit word, at the mirrored position 3 - i%4. |
| `Swaps.WordSwapped` | tool64.c:359-364 | The contents `wordswap` leaves in its region, defined word by word. It keeps the length. |
| `Swaps.DWordSwapped` | tool64.c:366-372 | The contents `dwordswap` leaves in its region, defined word by word. It keeps the length. |
| `Swaps.WordSwappedAt` | tool64.c:359-364 | After a word swap, byte i of every whole 16-bit word is the old byte i XOR 1 (ABCD -> BADC). |
| `Swaps.DWordSwappedAt` | tool64.c:366-372 | After a double-word swap, byte i of every whole 32-bit word is the old byte 4*(i/4) + 3 - i%4 (ABCD -> DCBA). |
| `Swaps.WordSwappedWord` | tool64.c:359-364 | Inside the w-th whole 16-bit word, byte j of the result is old byte 1 - j. |
| `Swaps.DWordSwappedWord` | tool64.c:366-372 | Inside the w-th whole 32-bit word, byte j of the result is old byte 3 - j. |
| `Swaps.WordSwapInvolution` | tool64.c:359-364 | Applying the word swap twice restores any buffer. |
| `Swaps.DWordSwapInvolution` | tool64.c:366-372 | Applying the double-word swap twice restores any buffer. |
| `Swaps.WordSwapPermutes` | tool64.c:359-364 | The word swap preserves the multiset of bytes. |
| `Swaps.DWordSwapPermutes` | tool64.c:366-372 | The double-word swap preserves the multiset of bytes. |
| `Swaps.PairPermutes` | tool64.c:374-378 | Exchanging two bytes keeps the same multiset. |
| `Swaps.ReversedWordPermutes` | tool64.c:369-370 | Reversing a 4-byte word keeps the same multiset. |
| `Swaps.MagicSwaps` | tool64.c:9-11 | Word swapping the Z64 magic gives the V64 magic, and back. Double-word swapping it gives the N64 magic, and back. |
| `Swaps.PrefixSwapped` | tool64.c:278-293 | The first four bytes of a swapped buffer are the swap of its first four bytes. |
| `Swaps.WordSwappedSnoc` | tool64.c:360-362 | Appending one 16-bit word to an even prefix appends it swapped to the result. |
| `Swaps.DWordSwappedSnoc` | tool64.c:367-370 | Appending one 32-bit word to a word-aligned prefix appends it reversed to the result. |
| `Swaps.Exchanged` | tool64.c:374-378 | The result has the same length, holds the old s[b] at a and the old s[a] at b, and every other byte is unchanged. |
| `Swaps.WordSwapStep` | tool64.c:360-362 | One iteration of the `wordswap` loop extends the swapped prefix by one word and leaves the bytes after it unchanged. |
| `Swaps.DWordSwapStep` | tool64.c:367-370 | One iteration of the `dwordswap` loop, its two calls to `swap`, extends the reversed prefix by one word and leaves the bytes after it unchanged. |
| `Swaps.Swap` | tool64.c:374-378 | buf[a] and buf[b] are exchanged and every other index is unchanged. With a == b nothing changes. |
| `Swaps.WordSwap` | tool64.c:359-364 | For an even len, the first len bytes become their word swap and the bytes from len on are unchanged. |
| `Swaps.DWordSwap` | tool64.c:366-372 | For len a multiple of 4, the first len bytes become their double-word swap and the bytes from len on are unchanged. |
| `Header.HeaderLayout` | tool64.c:19-36 | The 16 fields tile the 64-byte header with no gap or padding. Every field of 4 or more bytes is 32-bit aligned. |
| `Header.MagicFields` | tool64.c:20-23 | The magic bytes are the one-byte fields lat, pgs1, pwd and pgs2, at offsets 0..3. |
| `Header.ReadField` | tool64.c:143-166 | A field's bytes are exactly `Width(f)` stored bytes from its offset. |
| `Header.DWordSwapReversesWord` | tool64.c:366-372 | A double-word swap reverses the 4 bytes of each whole word in place. |
| `Header.DWordSwapReversesField` | tool64.c:143-166 | A double-word swap reverses each 32-bit header field in place: AA BB CC DD becomes DD CC BB AA. |
| `Header.WordSwapExchangesTail` | tool64.c:33-35 | A word swap exchanges the two cartridge-id bytes. It also exchanges the country code and the version. |
| `Header.CountryName` | tool64.c:56-103 | The result is "Unknown" exactly for codes outside the table, and "Europe" exactly for 0x50, 0x58 and 0x59. |
| `Conversion.Transform` | tool64.c:279-293 | The single swap relating Z64 order and a format's order: `dwordswap` for N64, `wordswap` for V64, none for Z64 or an unrecognised value. It keeps the length. |
| `Conversion.TransformInvolution` | tool64.c:278-293 | The per-format swap keeps the length and the bytes, and undoes itself. |
| `Conversion.ConvertedImage` | tool64.c:257-293 | The converted image is a permutation of the input with the same length. When source equals target it is the input unchanged. |
| `Conversion.NormaliseToZ64` | tool64.c:317-325 | A recognised header, swapped by its own format's transform, classifies as Z64. |
| `Conversion.DenormaliseFromZ64` | tool64.c:286-293 | A Z64 image, transformed to a recognised target, classifies as that target. |
| `Conversion.ConvertClassifies` | tool64.c:278-293 | Converting a recognised source to a recognised target gives an image whose magic classifies as the target. |
| `Conversion.ConvertRoundTrip` | tool64.c:278-293 | Converting A to B and then B to A restores the original bytes, for every pair of formats. |
| `Conversion.ConvertUnknownSource` | tool64.c:278-284 | An unrecognised source gets no normalising swap, only the target's transform. |
| `Conversion.ConvertToN64ReversesFields` | tool64.c:291-293 | Converting Z64 to N64 reverses every 32-bit header field, for example the clock rate. |
| `Conversion.SwapBoundsHold` | tool64.c:278-293 | The swaps `convert` performs stay inside the image: a multiple of 4 is needed when N64 is involved, an even length when V64 is. Any multiple of 4 suffices. |
| `Conversion.Convert` | tool64.c:257-293 | Source equal to target returns "nothing to do" and leaves the buffer unchanged. Otherwise the buffer becomes `ConvertedImage` of its old contents. |
| `Conversion.LoadRom` | tool64.c:317-325 | Returns the header's format and swaps the 64-byte header by that format's transform. |
| `Text.LastDot` | tool64.c:170 | Returns None exactly when there is no '.'. Otherwise it returns a '.' index with no '.' after it. |
| `Text.Ext` | tool64.c:169-173 | The result is the dot-free suffix after the last '.'. It is empty exactly when there is no dot after index 0 or the name ends with '.'. |
| `Text.ToLower` | tool64.c:305 | The result is never 'A'..'Z'. Only upper-case letters change, each to its lower-case letter. |
| `Text.CLength` | tool64.c:304 | Returns the index of the first NUL. |
| `Text.Downcased` | tool64.c:302-308 | The reference definition of the array after `downcase`: the characters before the first NUL lower-cased. Its contract keeps the length. `DowncasedKeepsLength` and `DowncaseIdempotent` state its properties, and `Downcase` is proved against it. |
| `Text.DowncasedKeepsLength` | tool64.c:302-308 | Lower-casing keeps the NUL terminator at the same index. |
| `Text.DowncaseIdempotent` | tool64.c:302-308 | Lower-casing twice gives the same result as lower-casing once. |
| `Text.Downcase` | tool64.c:302-308 | Lower-cases every character before the first NUL and changes nothing from the NUL on. |
| `Text.DowncaseCString` | tool64.c:302-308 | On a NUL-terminated string, downcase lower-cases exactly the characters before the terminator. |
| `Text.Dispatch` | tool64.c:343-356 | "help" and "info" are selected by prefix. "z64", "n64" and "v64" are selected only by exact match, and map to known formats. |
| `Text.SelectCommand` | tool64.c:340-356 | After lower-casing, "help" and "info" are selected by any case variant of the 4-character prefix. "z64", "n64" and "v64" are selected by any case variant of the exact word. |

## Left out

- File I/O has no behaviour to state, so it is not modelled:
  - `header` (fread and rewind);
  - `rom_size` (fseek and ftell);
  - `fopen` in `load_rom`;
  - the read in `convert`, and its write to the fixed name "myfile.bin".
  `Convert` takes the image as an array already in memory.
- Printing is not modelled: `info`, `print_help`, the diagnostic `printf` in
  `format_str`, and the messages of `convert` and `main`.
- `clockrate` is never called. It masks before shifting, so it always returns 0.
- `info` reads multi-byte header fields as host-endian integers. Their values
  depend on the host, so header fields are modelled only as byte offsets.
- The `malloc`/`memset` allocation in `convert` is not modelled. Its memset
  clears only pointer-size bytes, and every byte is overwritten by the read.
- The argument-count checks and exit codes of `main`, `info` and `convert`
  are not modelled.
- `Swaps.WordSwap` requires an even `len`. With an odd `len`, `wordswap`
  swaps `buf[len-1]` with `buf[len]`, past the region.
- `Swaps.DWordSwap` requires `len % 4 == 0`. Otherwise `dwordswap`
  indexes past the region.
- `Conversion.Convert` requires `SwapBoundsHold`. The swaps it performs must
  stay inside the buffer, which the C code never checks.
- `Conversion.LoadRom` takes a full 64-byte header. A file shorter than the
  header leaves part of it uninitialised in C.
- `Layout.Format` computes the intended unsigned value. In C, `lat << 24`
  shifts a promoted signed int, which is undefined behaviour for bytes of
  0x80 and above.
- `Text.Ext` requires a name with no NUL character. A C string ends at its
  first NUL.
- An unrecognised source is converted, not rejected: `convert` applies no
  normalising swap and then only the target's swap (tool64.c:278-293).
- V64 is normalised with `wordswap` and N64 with `dwordswap`, the swaps that
  map their magic bytes to the Z64 magic (tool64.c:9-11, 279-284).
- There is no length check on the header: `sizeof(rom_header_t)` is always
  64 bytes, and `LoadRom` takes exactly 64.
- `Swaps.WordSwappedTail`: `WordSwapped` is total and leaves a trailing odd
  byte where it is. `wordswap` never does this: with an odd `len` its last
  step swaps `buf[len-1]` with `buf[len]` (tool64.c:361-362). `WordSwap`
  requires an even `len`, so the methods never reach that case.
- `Swaps.DWordSwappedTail`: `DWordSwapped` is total and leaves 1..3 trailing
  bytes where they are. `dwordswap` never does this: when `len % 4 != 0` its
  last step swaps bytes past `len` (tool64.c:369-370). `DWordSwap` requires
  `len % 4 == 0`, so the methods never reach that case.
