/** Machine integer widths and the header constants shared by the NFC tag helpers. */
module NfcTypes {

  /** An unsigned 8-bit value (uint8_t). */
  type byte = x: int | 0 <= x < 0x100

  /** An unsigned 16-bit value (uint16_t). */
  type uint16 = x: int | 0 <= x < 0x1_0000

  /** An unsigned 32-bit value (uint32_t). */
  type uint32 = x: int | 0 <= x < 0x1_0000_0000

  /** Arithmetic on uint32_t is reduced modulo this value. */
  const U32Modulus: nat := 0x1_0000_0000

  /** Bytes in one MIFARE Classic block (MIFARE_CLASSIC_BLOCK_SIZE). */
  const MifareClassicBlockSize: nat := 16

  /** Bytes per MIFARE Ultralight read unit (MIFARE_ULTRALIGHT_READ_SIZE). */
  const MifareUltralightReadSize: nat := 4

  /** Header bytes of a short-form NDEF TLV: tag and one length byte (MIFARE_CLASSIC_SHORT_TLV_SIZE). */
  const MifareClassicShortTlvSize: nat := 2

  /** Header bytes of a long-form NDEF TLV: tag, 0xFF and two length bytes (MIFARE_CLASSIC_LONG_TLV_SIZE). */
  const MifareClassicLongTlvSize: nat := 4

  datatype Option<+T> = None | Some(value: T)
}
