/**
 * Location and decoding of the NDEF Message TLV at the start of a MIFARE Classic
 * data block (get_mifare_classic_ndef_start_index, decode_mifare_classic_tlv).
 * The layout is the TLV block format of section 2.3 of the NFC Forum Type 2 Tag
 * Operation Specification: NULL TLVs (0x00) are skipped, 0x03 starts the NDEF
 * Message TLV, and its length is one byte, or 0xFF followed by a big-endian 16-bit length.
 */
module TlvDecoder {
  import opened NfcTypes

  const NullTlv: byte := 0x00
  const NdefMessageTlv: byte := 0x03
  const LongLengthMarker: byte := 0xFF

  /** Outcome of the scan for the NDEF Message TLV within the first block. */
  datatype NdefScan = Found(index: nat) | NotFound | Malformed

  /** Every byte before position i is a NULL TLV. */
  predicate AllPadding(data: seq<byte>, i: nat)
    requires i <= |data|
  {
    forall k :: 0 <= k < i ==> data[k] == NullTlv
  }

  /** The scan from position k on: skip 0x00, stop at 0x03, fail at anything else. */
  function ScanFrom(data: seq<byte>, k: nat): (r: NdefScan)
    requires MifareClassicBlockSize <= |data| && k <= MifareClassicBlockSize
    ensures r.Found? ==> k <= r.index < MifareClassicBlockSize && data[r.index] == NdefMessageTlv
    decreases MifareClassicBlockSize - k
  {
    if k == MifareClassicBlockSize then NotFound
    else if data[k] == NullTlv then ScanFrom(data, k + 1)
    else if data[k] == NdefMessageTlv then Found(k)
    else Malformed
  }

  /** Where the NDEF Message TLV starts in the first block of `data`. */
  function NdefStart(data: seq<byte>): (r: NdefScan)
    requires MifareClassicBlockSize <= |data|
    ensures r.Found? ==> r.index < MifareClassicBlockSize && data[r.index] == NdefMessageTlv
  {
    ScanFrom(data, 0)
  }

  /** What the scan from k answers, when everything before k is padding. */
  lemma {:induction false} ScanFromOutcome(data: seq<byte>, k: nat)
    requires MifareClassicBlockSize <= |data| && k <= MifareClassicBlockSize && AllPadding(data, k)
    ensures ScanFrom(data, k).Found? ==> AllPadding(data, ScanFrom(data, k).index)
    ensures ScanFrom(data, k).NotFound? ==> AllPadding(data, MifareClassicBlockSize)
    ensures ScanFrom(data, k).Malformed? ==>
              exists j :: k <= j < MifareClassicBlockSize && data[j] != NullTlv && data[j] != NdefMessageTlv && AllPadding(data, j)
    decreases MifareClassicBlockSize - k
  {
    if k < MifareClassicBlockSize && data[k] == NullTlv {
      ScanFromOutcome(data, k + 1);
    }
  }

  /** Only one position can hold the first byte other than 0x00. */
  lemma FirstNonPaddingIsUnique(data: seq<byte>)
    requires MifareClassicBlockSize <= |data|
    ensures forall a, b ::
              0 <= a < b < MifareClassicBlockSize && data[a] != NullTlv && data[b] != NullTlv ==> !AllPadding(data, b)
  {
  }

  /** The scan succeeds at i exactly when data[i] is 0x03 and everything before it is padding. */
  lemma NdefStartFoundIff(data: seq<byte>, i: nat)
    requires MifareClassicBlockSize <= |data|
    ensures NdefStart(data) == Found(i) <==>
              i < MifareClassicBlockSize && data[i] == NdefMessageTlv && AllPadding(data, i)
  {
    ScanFromOutcome(data, 0);
    FirstNonPaddingIsUnique(data);
  }

  /** The scan reports "not found" exactly when the whole block is padding. */
  lemma NdefStartNotFoundIff(data: seq<byte>)
    requires MifareClassicBlockSize <= |data|
    ensures NdefStart(data) == NotFound <==> AllPadding(data, MifareClassicBlockSize)
  {
    ScanFromOutcome(data, 0);
  }

  /** The scan reports "malformed" exactly when the first byte other than 0x00 is not 0x03. */
  lemma NdefStartMalformedIff(data: seq<byte>, j: nat)
    requires MifareClassicBlockSize <= |data|
    requires j < MifareClassicBlockSize && data[j] != NullTlv && AllPadding(data, j)
    ensures NdefStart(data) == Malformed <==> data[j] != NdefMessageTlv
  {
    ScanFromOutcome(data, 0);
    FirstNonPaddingIsUnique(data);
  }

  /** get_mifare_classic_ndef_start_index, with the sentinels replaced by a discriminated result. */
  method FindNdefStart(data: seq<byte>) returns (r: NdefScan)
    requires MifareClassicBlockSize <= |data|
    ensures r == NdefStart(data)
  {
    var i := 0;
    while i < MifareClassicBlockSize
      invariant i <= MifareClassicBlockSize
      invariant ScanFrom(data, i) == NdefStart(data)
    {
      if data[i] == NullTlv {
        // padding, skip
      } else if data[i] == NdefMessageTlv {
        return Found(i);
      } else {
        return Malformed;
      }
      i := i + 1;
    }
    return NotFound;
  }

  /**
   * The length field of a long-form header, `((0xFF & hi) << 8) | (0xFF & lo)`:
   * masking a byte with 0xFF keeps it, and the shifted high byte and the low byte
   * share no bit, so the expression is the big-endian value below.
   */
  function LongLength(hi: byte, lo: byte): nat {
    hi as int * 256 + lo
  }

  /**
   * In 32-bit arithmetic the source's mask, shift and or of two bytes equal
   * `hi * 0x100 + lo`, and that sum stays below 2^16, so it does not wrap.
   */
  lemma LongLengthBits(hi: bv32, lo: bv32)
    requires hi < 0x100 && lo < 0x100
    ensures ((0xFF & hi) << 8) | (0xFF & lo) == hi * 0x100 + lo
    ensures hi * 0x100 + lo < 0x1_0000
  {
  }

  /** The decoded NDEF Message TLV header: payload length and index of its first byte. */
  datatype TlvHeader = TlvHeader(messageLength: nat, messageStartIndex: nat)

  /** The header bytes after the 0x03 tag lie inside `data`, so decoding reads nothing undefined. */
  predicate HeaderReadable(data: seq<byte>)
    requires MifareClassicBlockSize <= |data|
  {
    match NdefStart(data)
    case Found(i) => i + 1 < |data| && (data[i + 1] == LongLengthMarker ==> i + 3 < |data|)
    case _ => true
  }

  /** The header decode_mifare_classic_tlv reports, or None when it reports failure. */
  function ReadTlvHeader(data: seq<byte>): (r: Option<TlvHeader>)
    requires MifareClassicBlockSize <= |data| && HeaderReadable(data)
    ensures r.Some? <==> NdefStart(data).Found?
    ensures r.Some? ==> r.value.messageLength <= 0xFFFF
    ensures r.Some? ==> NdefStart(data).index + MifareClassicShortTlvSize <= r.value.messageStartIndex
                        <= NdefStart(data).index + MifareClassicLongTlvSize
  {
    match NdefStart(data)
    case Found(i) =>
      if data[i + 1] == LongLengthMarker then
        Some(TlvHeader(LongLength(data[i + 2], data[i + 3]), i + MifareClassicLongTlvSize))
      else
        Some(TlvHeader(data[i + 1], i + MifareClassicShortTlvSize))
    case _ => None
  }

  /**
   * decode_mifare_classic_tlv. The two reference parameters are passed in as
   * `messageLengthIn` and `messageStartIndexIn` and come back unchanged on failure.
   */
  method DecodeTlv(data: seq<byte>, messageLengthIn: uint32, messageStartIndexIn: byte)
    returns (ok: bool, messageLength: uint32, messageStartIndex: byte)
    requires MifareClassicBlockSize <= |data| && HeaderReadable(data)
    ensures ok <==> ReadTlvHeader(data).Some?
    ensures ok ==> messageLength == ReadTlvHeader(data).value.messageLength
    ensures ok ==> messageStartIndex == ReadTlvHeader(data).value.messageStartIndex
    ensures !ok ==> messageLength == messageLengthIn && messageStartIndex == messageStartIndexIn
  {
    messageLength, messageStartIndex := messageLengthIn, messageStartIndexIn;
    var scan := FindNdefStart(data);
    if !scan.Found? {
      // the error is also logged; logging is not modelled
      return false, messageLength, messageStartIndex;
    }
    var i := scan.index;
    if data[i + 1] == LongLengthMarker {
      messageLength := LongLength(data[i + 2], data[i + 3]);
      messageStartIndex := i + MifareClassicLongTlvSize;
    } else {
      messageLength := data[i + 1];
      messageStartIndex := i + MifareClassicShortTlvSize;
    }
    ok := true;
  }

  /** Decoding succeeds at the first 0x03 after padding and reads the short or the long length form there. */
  lemma ReadTlvHeaderAt(data: seq<byte>, i: nat)
    requires MifareClassicBlockSize <= |data| && HeaderReadable(data)
    requires i < MifareClassicBlockSize && data[i] == NdefMessageTlv && AllPadding(data, i)
    requires i + 1 < |data| && (data[i + 1] == LongLengthMarker ==> i + 3 < |data|)
    ensures ReadTlvHeader(data) ==
              if data[i + 1] == LongLengthMarker
              then Some(TlvHeader(data[i + 2] as int * 256 + data[i + 3], i + MifareClassicLongTlvSize))
              else Some(TlvHeader(data[i + 1], i + MifareClassicShortTlvSize))
  {
    NdefStartFoundIff(data, i);
  }

  /** Decoding fails, leaving the caller's values alone, exactly when the scan finds no NDEF TLV. */
  lemma ReadTlvHeaderFails(data: seq<byte>)
    requires MifareClassicBlockSize <= |data| && HeaderReadable(data)
    ensures ReadTlvHeader(data) == None <==>
              AllPadding(data, MifareClassicBlockSize) || NdefStart(data) == Malformed
  {
    NdefStartNotFoundIff(data);
  }

  /** The header that announces a message of `length` bytes: short form below 255, long form otherwise. */
  function EncodeTlvHeader(length: nat): (h: seq<byte>)
    requires length <= 0xFFFF
    ensures |h| == if length < 255 then MifareClassicShortTlvSize else MifareClassicLongTlvSize
    ensures h[0] == NdefMessageTlv
  {
    if length < 255 then [NdefMessageTlv, length]
    else [NdefMessageTlv, LongLengthMarker, length / 256, length % 256]
  }

  function Padding(n: nat): (p: seq<byte>)
    ensures |p| == n && forall k :: 0 <= k < n ==> p[k] == NullTlv
  {
    seq(n, _ => NullTlv)
  }

  /** Decoding a block that holds padding and then an encoded header recovers the length and the payload offset. */
  lemma DecodeEncodedHeader(padding: nat, length: nat, rest: seq<byte>)
    requires padding < MifareClassicBlockSize && length <= 0xFFFF
    requires MifareClassicBlockSize <= padding + |EncodeTlvHeader(length)| + |rest|
    ensures var data := Padding(padding) + EncodeTlvHeader(length) + rest;
            HeaderReadable(data) &&
            ReadTlvHeader(data) == Some(TlvHeader(length, padding + |EncodeTlvHeader(length)|))
  {
    var h := EncodeTlvHeader(length);
    var data := Padding(padding) + h + rest;
    assert forall k :: 0 <= k < |h| ==> data[padding + k] == h[k];
    assert AllPadding(data, padding);
    NdefStartFoundIff(data, padding);
    ReadTlvHeaderAt(data, padding);
  }

  // The source returns the scan's -2 and -1 through a uint8_t; what follows models
  // that code as written.

  /** Conversion of a C++ int to uint8_t. */
  function ToUint8(x: int): byte {
    x % 0x100
  }

  /** The value get_mifare_classic_ndef_start_index returns as written: -2 becomes 254 and -1 becomes 255. */
  function StartIndexAsWritten(data: seq<byte>): (r: byte)
    requires MifareClassicBlockSize <= |data|
    ensures NdefStart(data).Found? ==> r == NdefStart(data).index
    ensures NdefStart(data).Malformed? ==> r == 254
    ensures NdefStart(data).NotFound? ==> r == 255
  {
    match NdefStart(data)
    case Found(i) => i
    case Malformed => ToUint8(-2)
    case NotFound => ToUint8(-1)
  }

  /** What decode_mifare_classic_tlv does as written: reject, accept a header, or read an undefined element. */
  datatype AsWrittenDecode = Rejected | Accepted(messageLength: nat, messageStartIndex: byte) | UndefinedRead

  /**
   * decode_mifare_classic_tlv as written. Where the scan succeeds it agrees with
   * ReadTlvHeader; it rejects a buffer only when the scan failed, never because of `i < 0`.
   */
  function DecodeAsWritten(data: seq<byte>): (r: AsWrittenDecode)
    requires MifareClassicBlockSize <= |data|
    ensures NdefStart(data).Found? && HeaderReadable(data) ==>
              r == Accepted(ReadTlvHeader(data).value.messageLength, ReadTlvHeader(data).value.messageStartIndex)
    ensures r.Rejected? ==> !NdefStart(data).Found? && StartIndexAsWritten(data) < |data|
  {
    var i := StartIndexAsWritten(data);
    if i < 0 then Rejected
    else if |data| <= i then UndefinedRead
    else if data[i] != NdefMessageTlv then Rejected
    else if |data| <= i + 1 then UndefinedRead
    else if data[i + 1] == LongLengthMarker then
      if |data| <= i + 3 then UndefinedRead
      else Accepted(LongLength(data[i + 2], data[i + 3]), ToUint8(i + MifareClassicLongTlvSize))
    else Accepted(data[i + 1], ToUint8(i + MifareClassicShortTlvSize))
  }

  /** On a single 16-byte block every failed scan leads the code as written to read past the block. */
  lemma AsWrittenFailureReadsPastBlock(data: seq<byte>)
    requires |data| == MifareClassicBlockSize && !NdefStart(data).Found?
    ensures DecodeAsWritten(data) == UndefinedRead
  {
  }

  /**
   * A malformed layout the code as written accepts: byte 0 is neither 0x00 nor 0x03,
   * so the scan fails, yet the sentinel 254 points at a 0x03 further on.
   */
  lemma AsWrittenAcceptsMalformedLayout()
    ensures var data := [0x05 as byte] + Padding(253) + [NdefMessageTlv, 0x10];
            NdefStart(data) == Malformed &&
            DecodeAsWritten(data) == Accepted(16, 0) &&
            ReadTlvHeader(data) == None
  {
    var data := [0x05 as byte] + Padding(253) + [NdefMessageTlv, 0x10];
    assert data[0] == 0x05 && data[254] == NdefMessageTlv && data[255] == 0x10;
  }
}
