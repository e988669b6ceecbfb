/**
 * Buffer sizes for reading or writing an NDEF message of a given length
 * (get_mifare_ultralight_buffer_size, get_mifare_classic_buffer_size): the
 * message plus its TLV header and terminator, rounded up to the tag's read unit,
 * all in uint32_t arithmetic.
 */
module BufferSizer {
  import opened NfcTypes
  import TlvDecoder

  /** The smallest multiple of `unit` that is at least x. */
  function RoundUp(x: nat, unit: nat): nat
    requires unit > 0
  {
    (x + unit - 1) / unit * unit
  }

  /** r is the least multiple of `unit` not below x: the multiple before it is below x. */
  predicate IsSmallestMultipleAtLeast(r: int, x: int, unit: nat)
    requires unit > 0
  {
    r % unit == 0 && x <= r && r - unit < x
  }

  /** The two read units of the sizing code. */
  predicate IsReadUnit(unit: nat) {
    unit == MifareUltralightReadSize || unit == MifareClassicBlockSize
  }

  lemma RoundUpIsSmallestMultiple(x: nat, unit: nat)
    requires IsReadUnit(unit)
    ensures IsSmallestMultipleAtLeast(RoundUp(x, unit), x, unit)
    ensures x % unit == 0 ==> RoundUp(x, unit) == x
  {
  }

  /** The source's rounding step, `((size / unit) + 1) * unit` on unaligned sizes, is RoundUp. */
  lemma RoundingStep(size: nat, unit: nat)
    requires IsReadUnit(unit)
    ensures (if size % unit != 0 then (size / unit + 1) * unit else size) == RoundUp(size, unit)
  {
    if unit == MifareUltralightReadSize {
      assert (size + 3) / 4 == if size % 4 == 0 then size / 4 else size / 4 + 1;
    } else {
      assert (size + 15) / 16 == if size % 16 == 0 then size / 16 else size / 16 + 1;
    }
  }

  /** Rounding commutes with adding 2^32, a multiple of every read unit. */
  lemma RoundUpShift(size: nat, unit: nat)
    requires IsReadUnit(unit)
    ensures RoundUp(size + U32Modulus, unit) == RoundUp(size, unit) + U32Modulus
  {
    if unit == MifareUltralightReadSize {
      assert (size + U32Modulus + 3) / 4 == (size + 3) / 4 + U32Modulus / 4;
    } else {
      assert (size + U32Modulus + 15) / 16 == (size + 15) / 16 + U32Modulus / 16;
    }
  }

  /** Reduction modulo 2^32 of a value below 2^33 subtracts 2^32 at most once. */
  lemma ModOfSmall(x: nat)
    requires x < 2 * U32Modulus
    ensures x % U32Modulus == if x < U32Modulus then x else x - U32Modulus
  {
  }

  /** The source's rounding step on a uint32_t: `((size / unit) + 1) * unit` when size is unaligned. */
  function RoundingStepU32(size: uint32, unit: nat): uint32
    requires unit > 0
  {
    if size % unit != 0 then ((size / unit + 1) * unit) % U32Modulus else size
  }

  /**
   * The source's rounding on a uint32_t that may already have wrapped around
   * agrees with RoundUp of the unwrapped size, reduced modulo 2^32.
   */
  lemma WrappedRounding(raw: nat, unit: nat)
    requires IsReadUnit(unit) && raw < U32Modulus + 0x100
    ensures RoundingStepU32(raw % U32Modulus, unit) == RoundUp(raw, unit) % U32Modulus
  {
    var size := raw % U32Modulus;
    ModOfSmall(raw);
    var r := RoundUp(size, unit);
    RoundingStep(size, unit);
    RoundUpIsSmallestMultiple(size, unit);
    assert r < 2 * U32Modulus;
    assert RoundingStepU32(size, unit) == r % U32Modulus;
    if raw >= U32Modulus {
      RoundUpShift(size, unit);
      ModOfSmall(r);
      ModOfSmall(r + U32Modulus);
    }
  }

  /** The wrapped size stays aligned, and is the least aligned size when nothing wrapped. */
  lemma WrappedSizeMeaning(raw: nat, unit: nat)
    requires IsReadUnit(unit) && raw < 2 * U32Modulus
    ensures (RoundUp(raw, unit) % U32Modulus) % unit == 0
    ensures RoundUp(raw, unit) < U32Modulus ==>
              IsSmallestMultipleAtLeast(RoundUp(raw, unit) % U32Modulus, raw, unit)
  {
    var r := RoundUp(raw, unit);
    RoundUpIsSmallestMultiple(raw, unit);
    assert r < 3 * U32Modulus;
    assert r % U32Modulus == if r < U32Modulus then r else if r < 2 * U32Modulus then r - U32Modulus else r - 2 * U32Modulus;
  }

  /** Bytes needed before rounding for an Ultralight message: short TLV header (2) and terminator (1). */
  function UltralightRawSize(messageLength: nat): nat {
    messageLength + 2 + 1
  }

  /** get_mifare_ultralight_buffer_size. */
  method UltralightBufferSize(messageLength: uint32) returns (bufferSize: uint32)
    ensures bufferSize == RoundUp(UltralightRawSize(messageLength), MifareUltralightReadSize) % U32Modulus
    ensures bufferSize % MifareUltralightReadSize == 0
    ensures RoundUp(UltralightRawSize(messageLength), MifareUltralightReadSize) < U32Modulus ==>
              IsSmallestMultipleAtLeast(bufferSize, UltralightRawSize(messageLength), MifareUltralightReadSize)
  {
    bufferSize := (messageLength + 2 + 1) % U32Modulus;
    if bufferSize % MifareUltralightReadSize != 0 {
      bufferSize := ((bufferSize / MifareUltralightReadSize + 1) * MifareUltralightReadSize) % U32Modulus;
    }
    WrappedRounding(UltralightRawSize(messageLength), MifareUltralightReadSize);
    WrappedSizeMeaning(UltralightRawSize(messageLength), MifareUltralightReadSize);
  }

  /** Bytes needed before rounding for a Classic message: its TLV header, by length form, and the terminator. */
  function ClassicRawSize(messageLength: nat): nat {
    if messageLength < 255 then messageLength + MifareClassicShortTlvSize + 1
    else messageLength + MifareClassicLongTlvSize + 1
  }

  /** get_mifare_classic_buffer_size. */
  method ClassicBufferSize(messageLength: uint32) returns (bufferSize: uint32)
    ensures bufferSize == RoundUp(ClassicRawSize(messageLength), MifareClassicBlockSize) % U32Modulus
    ensures bufferSize % MifareClassicBlockSize == 0
    ensures RoundUp(ClassicRawSize(messageLength), MifareClassicBlockSize) < U32Modulus ==>
              IsSmallestMultipleAtLeast(bufferSize, ClassicRawSize(messageLength), MifareClassicBlockSize)
  {
    bufferSize := messageLength;
    if messageLength < 255 {
      bufferSize := (bufferSize + MifareClassicShortTlvSize + 1) % U32Modulus;
    } else {
      bufferSize := (bufferSize + MifareClassicLongTlvSize + 1) % U32Modulus;
    }
    if bufferSize % MifareClassicBlockSize != 0 {
      bufferSize := ((bufferSize / MifareClassicBlockSize + 1) * MifareClassicBlockSize) % U32Modulus;
    }
    WrappedRounding(ClassicRawSize(messageLength), MifareClassicBlockSize);
    WrappedSizeMeaning(ClassicRawSize(messageLength), MifareClassicBlockSize);
  }

  /** A message of any encodable length fits the Classic buffer with its header and terminator. */
  lemma ClassicBufferHoldsTlv(messageLength: nat)
    requires messageLength <= 0xFFFF
    ensures |TlvDecoder.EncodeTlvHeader(messageLength)| + messageLength + 1
            <= RoundUp(ClassicRawSize(messageLength), MifareClassicBlockSize)
            < U32Modulus
  {
  }

  /** The Ultralight buffer holds a message announced by a short-form header, with its terminator. */
  lemma UltralightBufferHoldsShortTlv(messageLength: nat)
    requires messageLength < 255
    ensures |TlvDecoder.EncodeTlvHeader(messageLength)| + messageLength + 1
            <= RoundUp(UltralightRawSize(messageLength), MifareUltralightReadSize)
  {
  }

  /**
   * From 255 bytes on a message needs a long-form header. The Ultralight size,
   * which always counts a short-form header, is then too small exactly when the
   * length is 0 or 1 modulo the read unit; otherwise rounding absorbs the 2 bytes.
   */
  lemma UltralightLongFormShortfall(messageLength: nat)
    requires 255 <= messageLength <= 0xFFFF
    ensures RoundUp(UltralightRawSize(messageLength), MifareUltralightReadSize)
            < |TlvDecoder.EncodeTlvHeader(messageLength)| + messageLength + 1
            <==> messageLength % MifareUltralightReadSize in {0, 1}
  {
    RoundUpIsSmallestMultiple(UltralightRawSize(messageLength), MifareUltralightReadSize);
  }
}
