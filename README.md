# NFC tag helpers, modelled in Dafny

This project models the helper routines of ESPHome's `nfc` component
(`esphome/components/nfc/nfc.cpp`). A reader or writer layer uses them to:

- print a tag UID or a byte buffer as separated uppercase hexadecimal;
- classify the tag family from the UID length, ATQA and SAK;
- find and decode the NDEF Message TLV header at the start of a MIFARE Classic data block;
- size the buffers for a MIFARE Ultralight or MIFARE Classic NDEF message;
- tell which MIFARE Classic blocks open a sector and which hold its trailer.

The TLV layout is the one in section 2.3 (TLV blocks) of the NFC Forum Type 2 Tag
Operation Specification. NULL TLVs (`0x00`) are skipped, `0x03` introduces the
NDEF Message TLV, and the length is one byte, or `0xFF` followed by a big-endian
16-bit length.

Modules, one per component of `nfc.cpp`:

- `NfcTypes` (`nfc_types.dfy`): the `uint8_t`/`uint16_t`/`uint32_t` ranges, `Option`,
  and the header constants. `nfc.h` is not part of this model. Its constants take the
  values the code relies on: block size 16, Ultralight read unit 4, short TLV header 2,
  long TLV header 4.
- `HexFormat` (`hex_format.dfy`): `format_uid` and `format_bytes`. Both share one loop,
  `FormatHex`, that writes into a `char` array at an advancing offset. `IsHexRendering`
  states the result position by position; `ParseHex` reads it back.
- `TagClassifier` (`tag_classifier.dfy`): `guess_tag_type` and `get_tag_type`. The
  `TAG_TYPE_*` codes become the closed datatype `TagType`. The decision table is also
  written as data (`IdentificationTable`) with a first-match lookup.
- `TlvDecoder` (`tlv_decoder.dfy`): the start-index scan (`FindNdefStart`, a loop with
  early returns) and `decode_mifare_classic_tlv` (`DecodeTlv`, with the reference
  parameters passed in and returned). The sentinels `-2`/`-1` become
  `NdefScan = Found(i) | NotFound | Malformed`. A header encoder gives the round trip,
  and a model of the code as written backs the finding below.
- `BufferSizer` (`buffer_sizer.dfy`): the two buffer-size methods, step by step, in
  `uint32_t` arithmetic with wrap-around written out (`% 2^32`).
- `MifareClassicLayout` (`mifare_classic_layout.dfy`): the two block predicates,
  checked against an independent description of the 1K/4K sector geometry.
- `NfcExamples` (`nfc_examples.dfy`): concrete UIDs, blocks and lengths, with the results
  that the contracts above determine for them.

Points where the code decides and the model follows it:

- A long-form header at index `i` puts the payload at `i + MIFARE_CLASSIC_LONG_TLV_SIZE`.
  For `03 FF 01 00` at index 0 that is index 4, with length 256.
- The Classic size adds `SHORT_TLV_SIZE + 1` (3) below 255 and `LONG_TLV_SIZE + 1` (5)
  from 255 on. So a 300-byte message needs 305 raw bytes, which rounds up to 320
  (`NfcExamples.SizingExamples`).
- `get_tag_type` tests `uid.size()`, but it has no `uid` in scope. The model tests its
  parameter `uid_length`, which is evidently what was meant.

## Model

| member | source | states |
|---|---|---|
| `HexFormat.HexDigit` | esphome/components/nfc/nfc.cpp:14 | `%X` digit of a nibble is an uppercase hex digit whose value reads back as that nibble |
| `HexFormat.FormatHex` | esphome/components/nfc/nfc.cpp:10-32 | for non-empty input, the buffer holds exactly 3n-1 characters: the two digits of byte k (high nibble first) at 3k, 3k+1, and the separator at 3k+2 for every byte but the last |
| `HexFormat.FormatUid` | esphome/components/nfc/nfc.cpp:10-20 | the UID rendered as two-digit groups joined by `-`, no trailing separator |
| `HexFormat.FormatBytes` | esphome/components/nfc/nfc.cpp:22-32 | the bytes rendered as two-digit groups joined by a space, no trailing separator |
| `HexFormat.ParseHexRoundTrip` | esphome/components/nfc/nfc.cpp:10-32 | decoding the groups of any rendering gives back exactly the original bytes |
| `HexFormat.RenderingAlphabet` | esphome/components/nfc/nfc.cpp:14-17 | every third character is the separator, every other one an uppercase hex digit |
| `HexFormat.RenderingIsUnique` | esphome/components/nfc/nfc.cpp:10-32 | a byte sequence has one rendering, so the formatter's output is fully determined |
| `HexFormat.RenderingIsInjective` | esphome/components/nfc/nfc.cpp:10-32 | distinct byte sequences never print the same string |
| `TagClassifier.GuessTagType` | esphome/components/nfc/nfc.cpp:34-40 | MIFARE Classic exactly when the UID has 4 bytes, Type 2 exactly otherwise |
| `TagClassifier.GetTagType` | esphome/components/nfc/nfc.cpp:42-59 | Classic iff (4, 0x0004, 0x08) or (4, 0x0002, 0x18); Ultralight iff (7, 0x0044, 0x00); DESFire iff (7, 0x0344, 0x20); never Type 2; Unknown otherwise |
| `TagClassifier.FirstMatchAt` | esphome/components/nfc/nfc.cpp:54-57 | a first-match lookup answers the family of the first row matching all three parameters |
| `TagClassifier.FirstMatchNone` | esphome/components/nfc/nfc.cpp:58 | a first-match lookup answers Unknown when no row matches |
| `TagClassifier.GetTagTypeIsTableLookup` | esphome/components/nfc/nfc.cpp:54-58 | for every input, `get_tag_type` equals the first-match lookup in the identification table |
| `TagClassifier.GuessAgreesWithClassification` | esphome/components/nfc/nfc.cpp:34-58 | a Classic classification implies a Classic guess; Ultralight and DESFire imply a Type 2 guess |
| `TlvDecoder.ScanFrom` | esphome/components/nfc/nfc.cpp:62-71 | a scan that stops with success stops inside the block, on a `0x03` byte |
| `TlvDecoder.NdefStart` | esphome/components/nfc/nfc.cpp:61-72 | a found start index lies inside the first block and holds `0x03` |
| `TlvDecoder.NdefStartFoundIff` | esphome/components/nfc/nfc.cpp:62-67 | the scan succeeds at i iff i < block size, `data[i] == 0x03` and all of `data[0..i)` are `0x00` |
| `TlvDecoder.NdefStartNotFoundIff` | esphome/components/nfc/nfc.cpp:62-71 | the scan reports "not found" iff the whole first block is `0x00` |
| `TlvDecoder.NdefStartMalformedIff` | esphome/components/nfc/nfc.cpp:62-69 | when j holds the first non-zero byte, the scan reports "malformed" iff that byte is not `0x03` |
| `TlvDecoder.FindNdefStart` | esphome/components/nfc/nfc.cpp:61-72 | the scanning loop with early returns computes `NdefStart` |
| `TlvDecoder.LongLengthBits` | esphome/components/nfc/nfc.cpp:81 | for two bytes in `bv32`, `((0xFF & hi) << 8) \| (0xFF & lo)` equals `hi * 0x100 + lo`, and that value is below 2^16, so no wrap occurs |
| `TlvDecoder.ReadTlvHeader` | esphome/components/nfc/nfc.cpp:74-88 | a header is reported exactly when the scan finds the NDEF TLV; its length fits 16 bits and its payload starts between SHORT_TLV_SIZE and LONG_TLV_SIZE bytes after the tag |
| `TlvDecoder.DecodeTlv` | esphome/components/nfc/nfc.cpp:74-88 | succeeds iff the scan finds the NDEF TLV, then outputs the decoded length and start index; on failure both reference outputs keep the caller's values |
| `TlvDecoder.ReadTlvHeaderAt` | esphome/components/nfc/nfc.cpp:80-86 | with `0x03` at i after padding: if `data[i+1] == 0xFF` the length is `data[i+2]*256 + data[i+3]` and the start `i + LONG_TLV_SIZE`, else the length is `data[i+1]` and the start `i + SHORT_TLV_SIZE` |
| `TlvDecoder.ReadTlvHeaderFails` | esphome/components/nfc/nfc.cpp:75-79 | decoding fails iff the block is all padding or its first non-padding byte is not `0x03` |
| `TlvDecoder.EncodeTlvHeader` | esphome/components/nfc/nfc.cpp:80-86 | the header for a length starts with `0x03` and takes SHORT_TLV_SIZE bytes below 255, LONG_TLV_SIZE bytes otherwise |
| `TlvDecoder.DecodeEncodedHeader` | esphome/components/nfc/nfc.cpp:80-86 | padding plus an encoded header for any length 0..65535 decodes to that length, with the payload right after the header |
| `TlvDecoder.StartIndexAsWritten` | esphome/components/nfc/nfc.cpp:61-72 | as written, the uint8_t result is the found index, 254 (from -2) when the layout is malformed and 255 (from -1) when no TLV is found |
| `TlvDecoder.DecodeAsWritten` | esphome/components/nfc/nfc.cpp:74-88 | the code as written agrees with `ReadTlvHeader` wherever the scan succeeds, and it rejects a buffer only after a failed scan, never through `i < 0` |
| `TlvDecoder.AsWrittenFailureReadsPastBlock` | esphome/components/nfc/nfc.cpp:75-76 | as written, every failed scan of a 16-byte block gets past `i < 0` and reads `data[254]` or `data[255]` |
| `TlvDecoder.AsWrittenAcceptsMalformedLayout` | esphome/components/nfc/nfc.cpp:61-86 | as written, a malformed buffer with `0x03 0x10` at index 254 is accepted as a 16-byte message at index 0 |
| `BufferSizer.RoundUpIsSmallestMultiple` | esphome/components/nfc/nfc.cpp:92-93 | rounding gives the least multiple of the read unit not below the raw size, and leaves an aligned size unchanged |
| `BufferSizer.RoundingStep` | esphome/components/nfc/nfc.cpp:104-106 | the source's `((size / unit) + 1) * unit` on an unaligned size is the round-up |
| `BufferSizer.WrappedRounding` | esphome/components/nfc/nfc.cpp:91-93 | the rounding step applied to a wrapped uint32_t equals the round-up of the true size, modulo 2^32 |
| `BufferSizer.UltralightBufferSize` | esphome/components/nfc/nfc.cpp:90-95 | the result is the round-up of `message_length + 3` to the read unit, modulo 2^32; it is always aligned, and without overflow it is the least multiple not below `message_length + 3` |
| `BufferSizer.ClassicBufferSize` | esphome/components/nfc/nfc.cpp:97-108 | the result is the round-up to the block size of `message_length + SHORT_TLV_SIZE + 1` below 255 and `+ LONG_TLV_SIZE + 1` otherwise, modulo 2^32; it is always aligned, and without overflow it is the least such multiple |
| `BufferSizer.ClassicBufferHoldsTlv` | esphome/components/nfc/nfc.cpp:97-103 | for every length up to 65535, the Classic buffer holds the encoded header, the message and the terminator, and does not overflow |
| `BufferSizer.UltralightBufferHoldsShortTlv` | esphome/components/nfc/nfc.cpp:90-91 | below 255 bytes, the Ultralight buffer holds the short header, the message and the terminator |
| `BufferSizer.UltralightLongFormShortfall` | esphome/components/nfc/nfc.cpp:90-94 | from 255 to 65535 bytes, the Ultralight buffer is too small for a long-form header, the message and the terminator exactly when the length is 0 or 1 modulo 4 |
| `MifareClassicLayout.IsFirstBlock` | esphome/components/nfc/nfc.cpp:110-116 | the source's conditional (n % 4 below 128, n % 16 from 128 on) holds exactly when n is the first block of its sector |
| `MifareClassicLayout.IsTrailerBlock` | esphome/components/nfc/nfc.cpp:118-124 | the source's conditional on n + 1 holds exactly when n is the last block of its sector |
| `MifareClassicLayout.SectorOf` | esphome/components/nfc/nfc.cpp:110-124 | every block number lies in one of the 40 sectors (32 of 4 blocks, then 8 of 16) |
| `MifareClassicLayout.SectorsAreDisjoint` | esphome/components/nfc/nfc.cpp:110-124 | a block lies in no sector other than `SectorOf` |
| `MifareClassicLayout.IsFirstBlockIffSectorStart` | esphome/components/nfc/nfc.cpp:110-116 | `is_first_block(n)` iff n is the first block of its sector |
| `MifareClassicLayout.IsTrailerBlockIffSectorEnd` | esphome/components/nfc/nfc.cpp:118-124 | `is_trailer_block(n)` iff n is the last block of its sector |
| `MifareClassicLayout.SectorBoundariesClassified` | esphome/components/nfc/nfc.cpp:110-124 | every sector's first block and trailer are classified as such |
| `MifareClassicLayout.FirstAndTrailerExclusive` | esphome/components/nfc/nfc.cpp:110-124 | no block is both a first block and a trailer |
| `MifareClassicLayout.TrailerPrecedesFirstBlock` | esphome/components/nfc/nfc.cpp:110-124 | for n < 255, n is a trailer iff n + 1 is a first block, including 127/128 |
| `NfcExamples.UidRenderingExample` | esphome/components/nfc/nfc.cpp:10-20 | the UID 04 A2 FF prints as `04-A2-FF` |
| `NfcExamples.ByteRenderingExamples` | esphome/components/nfc/nfc.cpp:22-32 | 01 02 prints as `01 02`; the single byte 9A prints as `9A` |
| `NfcExamples.ClassificationExamples` | esphome/components/nfc/nfc.cpp:44-58 | the Classic 1k/4k, Ultralight and DESFire cards are classified; MIFARE Mini, DESFire Random and unknown parameters give Unknown |
| `NfcExamples.LayoutExamples` | esphome/components/nfc/nfc.cpp:110-124 | blocks 0, 128 open sectors, 3, 127, 143, 255 are trailers, 3, 131, 132 are not first blocks |

## Left out

- The `ESP_LOGE` error line in `decode_mifare_classic_tlv` is not modelled. Logging belongs to an external collaborator.
- The stack VLA, `sprintf` and the C string are not modelled. `FormatHex` writes only the visible characters into an array of 3n-1 `char`s. The source's buffer of the same size has no room for the NUL that the last `sprintf` writes. For an empty input its size expression underflows.
- HexFormat.FormatUid: requires a non-empty UID, because the source's behaviour for an empty one is undefined.
- HexFormat.FormatBytes: requires a non-empty buffer, for the same reason.
- TlvDecoder.FindNdefStart: requires `data` to hold at least one block (16 bytes). The source reads `data[0]` to `data[15]` without checking the vector's size. `NdefStart`, `ReadTlvHeader` and `DecodeTlv` carry the same precondition.
- TlvDecoder.DecodeTlv: requires `HeaderReadable`. The source reads `data[i+1]`, and in long form `data[i+2]` and `data[i+3]`, without checking them. When `0x03` sits at the end of `data`, those reads are undefined, so the model excludes them.
- The header `nfc.h` is not part of this model. The numeric `TAG_TYPE_*` codes stay symbolic (the `TagType` datatype). The block, read-unit and TLV sizes are named constants.
- Only the first 16-byte block is scanned for the TLV tag, as the code does. When the `0x03` tag byte lies in the first block, its length bytes are read from whatever follows in `data`, even past the block. When those bytes are missing, the read is undefined and `HeaderReadable` excludes it. A tag byte past the first block is missed. It is reported as not found, or as malformed when another TLV, such as Lock Control (`0x01`), comes first.
- `get_mifare_ultralight_buffer_size` always adds a short-form header (2 bytes + 1). From 255 bytes on, a message needs a long-form header, 2 bytes more. Rounding to the read unit absorbs them unless the length is 0 or 1 modulo 4. For those lengths the buffer is too small (`UltralightLongFormShortfall`). The Ultralight reader that would use long-form headers is not part of this model, so this is not claimed as a finding.
- TlvDecoder.LongLength: computes `hi * 256 + lo` on integers rather than the source's mask-shift-or. `LongLengthBits` proves that, in `bv32`, the source's expression equals `hi * 0x100 + lo` and stays below 2^16. The step from that value to the integer is not stated in Dafny.

## Findings

| source | as written | input that shows it | evidently intended | confidence | as-written member | corrected member |
|---|---|---|---|---|---|---|
| esphome/components/nfc/nfc.cpp:61-76 | the start-index function returns -2/-1 through `uint8_t`, giving 254/255, so the caller's `i < 0` test never fires and the caller then reads `data[254]` or `data[255]` | a 16-byte block `05 00 … 00` reads past the block; a 256-byte buffer `05`, 253 × `00`, `03 10` is accepted as a 16-byte message at index 0 | a malformed or empty first block is reported as a decode failure, with the outputs untouched | high, not executed | `TlvDecoder.DecodeAsWritten`, shown by `TlvDecoder.AsWrittenAcceptsMalformedLayout` and `TlvDecoder.AsWrittenFailureReadsPastBlock` | `TlvDecoder.DecodeTlv`, with `TlvDecoder.ReadTlvHeaderFails` |
