/** Rendering of UIDs and byte buffers as separated uppercase hexadecimal (format_uid, format_bytes). */
module HexFormat {
  import opened NfcTypes

  predicate IsUpperHexDigit(c: char) {
    '0' <= c <= '9' || 'A' <= c <= 'F'
  }

  /** The value of an uppercase hexadecimal digit, or None for any other character. */
  function HexValue(c: char): (r: Option<nat>)
    ensures r.Some? <==> IsUpperHexDigit(c)
    ensures r.Some? ==> r.value < 16
  {
    if '0' <= c <= '9' then Some(c as int - '0' as int)
    else if 'A' <= c <= 'F' then Some(c as int - 'A' as int + 10)
    else None
  }

  /** The digit printf's `%X` prints for a value below 16. */
  function HexDigit(d: nat): (c: char)
    requires d < 16
    ensures IsUpperHexDigit(c)
    ensures HexValue(c) == Some(d)
  {
    if d < 10 then ('0' as int + d) as char else ('A' as int + d - 10) as char
  }

  /**
   * Character j of the rendering of `bytes`: byte k owns positions 3k and 3k+1
   * (its two `%02X` digits, high nibble first) and position 3k+2 (the separator).
   */
  function RenderedChar(bytes: seq<byte>, sep: char, j: nat): char
    requires j < 3 * |bytes|
  {
    var b := bytes[j / 3];
    if j % 3 == 0 then HexDigit(b / 16)
    else if j % 3 == 1 then HexDigit(b % 16)
    else sep
  }

  /**
   * `s` renders `bytes`: one two-digit group per byte, groups joined by `sep`,
   * no trailing separator. No string renders the empty sequence.
   */
  predicate IsHexRendering(s: string, bytes: seq<byte>, sep: char) {
    |s| == 3 * |bytes| - 1 &&
    forall j :: 0 <= j < |s| ==> s[j] == RenderedChar(bytes, sep, j)
  }

  /**
   * The loop shared by format_uid and format_bytes: each byte is printed as two
   * digits into `buf` at `offset`, followed by the separator unless it is the last one.
   */
  method FormatHex(bytes: seq<byte>, sep: char) returns (s: string)
    requires |bytes| > 0
    ensures IsHexRendering(s, bytes, sep)
  {
    var n := |bytes|;
    var buf := new char[3 * n - 1];
    var offset := 0;
    for i := 0 to n
      invariant offset == if i == n then 3 * n - 1 else 3 * i
      invariant forall j :: 0 <= j < offset ==> buf[j] == RenderedChar(bytes, sep, j)
    {
      assert (3 * i) / 3 == i && (3 * i + 1) / 3 == i && (3 * i + 2) / 3 == i;
      buf[offset] := HexDigit(bytes[i] / 16);
      buf[offset + 1] := HexDigit(bytes[i] % 16);
      if i + 1 < n {
        buf[offset + 2] := sep;
        offset := offset + 3;
      } else {
        offset := offset + 2;
      }
    }
    s := buf[..];
  }

  /** format_uid: groups joined by '-'. */
  method FormatUid(uid: seq<byte>) returns (s: string)
    requires |uid| > 0
    ensures IsHexRendering(s, uid, '-')
  {
    s := FormatHex(uid, '-');
  }

  /** format_bytes: groups joined by ' '. */
  method FormatBytes(bytes: seq<byte>) returns (s: string)
    requires |bytes| > 0
    ensures IsHexRendering(s, bytes, ' ')
  {
    s := FormatHex(bytes, ' ');
  }

  /** Reads back a rendering: two-digit groups separated by `sep`. */
  function ParseHex(s: string, sep: char): Option<seq<byte>>
    decreases |s|
  {
    if |s| < 2 || HexValue(s[0]).None? || HexValue(s[1]).None? then None
    else
      var b: byte := HexValue(s[0]).value * 16 + HexValue(s[1]).value;
      if |s| == 2 then Some([b])
      else if |s| < 5 || s[2] != sep then None
      else match ParseHex(s[3..], sep) {
        case None => None
        case Some(rest) => Some([b] + rest)
      }
  }

  /** Dropping the first group of a rendering leaves the rendering of the remaining bytes. */
  lemma RenderingTail(s: string, bytes: seq<byte>, sep: char)
    requires IsHexRendering(s, bytes, sep) && |bytes| > 1
    ensures IsHexRendering(s[3..], bytes[1..], sep)
  {
    forall j | 0 <= j < |s| - 3
      ensures s[3..][j] == RenderedChar(bytes[1..], sep, j)
    {
      assert (j + 3) / 3 == j / 3 + 1 && (j + 3) % 3 == j % 3;
      assert s[3..][j] == s[j + 3] == RenderedChar(bytes, sep, j + 3);
    }
  }

  /** Decoding every group of a rendering gives back the original bytes. */
  lemma {:induction false} ParseHexRoundTrip(s: string, bytes: seq<byte>, sep: char)
    requires IsHexRendering(s, bytes, sep)
    ensures ParseHex(s, sep) == Some(bytes)
    decreases |bytes|
  {
    var b := bytes[0];
    assert s[0] == RenderedChar(bytes, sep, 0) == HexDigit(b / 16);
    assert s[1] == RenderedChar(bytes, sep, 1) == HexDigit(b % 16);
    assert HexValue(s[0]).value * 16 + HexValue(s[1]).value == b;
    if |bytes| > 1 {
      assert s[2] == RenderedChar(bytes, sep, 2) == sep;
      RenderingTail(s, bytes, sep);
      ParseHexRoundTrip(s[3..], bytes[1..], sep);
      assert [b] + bytes[1..] == bytes;
    } else {
      assert bytes == [b];
    }
  }

  /** A rendering holds only uppercase hex digits and, at every third position, the separator. */
  lemma RenderingAlphabet(s: string, bytes: seq<byte>, sep: char, j: nat)
    requires IsHexRendering(s, bytes, sep) && j < |s|
    ensures j % 3 == 2 ==> s[j] == sep
    ensures j % 3 != 2 ==> IsUpperHexDigit(s[j])
  {
  }

  /** The rendering of a byte sequence is unique, so the formatters are deterministic. */
  lemma RenderingIsUnique(s: string, t: string, bytes: seq<byte>, sep: char)
    requires IsHexRendering(s, bytes, sep) && IsHexRendering(t, bytes, sep)
    ensures s == t
  {
  }

  /** Different byte sequences never share a rendering. */
  lemma RenderingIsInjective(s: string, bytes: seq<byte>, other: seq<byte>, sep: char)
    requires IsHexRendering(s, bytes, sep) && IsHexRendering(s, other, sep)
    ensures bytes == other
  {
    ParseHexRoundTrip(s, bytes, sep);
    ParseHexRoundTrip(s, other, sep);
  }
}
