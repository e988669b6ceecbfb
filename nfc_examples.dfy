/** Worked examples of the tag helpers on concrete tags and blocks. */
module NfcExamples {
  import opened NfcTypes
  import opened HexFormat
  import opened TagClassifier
  import opened TlvDecoder
  import opened BufferSizer
  import opened MifareClassicLayout

  /** The only rendering of the UID 04 A2 FF with '-' is "04-A2-FF". */
  lemma UidRenderingExample(s: string)
    requires IsHexRendering(s, [0x04, 0xA2, 0xFF], '-')
    ensures s == "04-A2-FF"
  {
    var t: string := "04-A2-FF";
    forall j | 0 <= j < |s| ensures s[j] == t[j] {
      assert s[j] == RenderedChar([0x04, 0xA2, 0xFF], '-', j);
    }
  }

  /** The byte dump of 01 02 is "01 02", and a single byte prints without a separator. */
  lemma ByteRenderingExamples(s: string, u: string)
    requires IsHexRendering(s, [0x01, 0x02], ' ')
    requires IsHexRendering(u, [0x9A], ' ')
    ensures s == "01 02" && u == "9A"
  {
    var t: string := "01 02";
    forall j | 0 <= j < |s| ensures s[j] == t[j] {
      assert s[j] == RenderedChar([0x01, 0x02], ' ', j);
    }
    assert u[0] == RenderedChar([0x9A], ' ', 0) && u[1] == RenderedChar([0x9A], ' ', 1);
  }

  method FormattingExamples() {
    var s := FormatUid([0x04, 0xA2, 0xFF]);
    UidRenderingExample(s);
    assert s == "04-A2-FF";
    var t := FormatBytes([0x01, 0x02]);
    var u := FormatBytes([0x9A]);
    ByteRenderingExamples(t, u);
    assert t == "01 02" && u == "9A";
  }

  /** The cards named beside get_tag_type: the table ones, and MIFARE Mini and DESFire Random, which it leaves Unknown. */
  lemma ClassificationExamples()
    ensures GetTagType(4, 0x0004, 0x08) == MifareClassic
    ensures GetTagType(4, 0x0002, 0x18) == MifareClassic
    ensures GetTagType(7, 0x0044, 0x00) == MifareUltralight
    ensures GetTagType(7, 0x0344, 0x20) == MifareDESFire
    ensures GetTagType(4, 0x9999, 0x99) == Unknown
    ensures GetTagType(4, 0x0004, 0x09) == Unknown && GetTagType(7, 0x0044, 0x09) == Unknown
    ensures GetTagType(4, 0x0304, 0x20) == Unknown
    ensures GuessTagType(4) == MifareClassic && GuessTagType(7) == Type2
  {
  }

  method DecodingExamples() {
    var short: seq<byte> := [0x00, 0x00, 0x03, 0x10, 0xD1] + Padding(11);
    assert short[2] == 0x03 && short[3] == 0x10 && AllPadding(short, 2);
    NdefStartFoundIff(short, 2);
    var ok, length, start := DecodeTlv(short, 0, 0);
    ReadTlvHeaderAt(short, 2);
    assert ok && length == 16 && start == 4;

    var long: seq<byte> := [0x03, 0xFF, 0x01, 0x00] + Padding(12);
    NdefStartFoundIff(long, 0);
    ok, length, start := DecodeTlv(long, 0, 0);
    ReadTlvHeaderAt(long, 0);
    assert ok && length == 256 && start == 4;

    var bad: seq<byte> := [0x00, 0x05, 0x03] + Padding(13);
    NdefStartMalformedIff(bad, 1);
    ok, length, start := DecodeTlv(bad, 7, 9);
    assert !ok && length == 7 && start == 9;
  }

  method SizingExamples() {
    var u := UltralightBufferSize(12);
    assert u == 16;
    var c := ClassicBufferSize(10);
    assert c == 16;
    c := ClassicBufferSize(300);
    assert c == 320;
    c := ClassicBufferSize(299);
    assert c == 304;
  }

  lemma LayoutExamples()
    ensures IsFirstBlock(0) && !IsFirstBlock(3) && IsFirstBlock(128) && !IsFirstBlock(131)
    ensures IsTrailerBlock(3) && IsTrailerBlock(127) && IsTrailerBlock(143) && IsTrailerBlock(255)
    ensures !IsFirstBlock(132) && !IsTrailerBlock(131)
  {
  }
}
