/**
 * The image checks of the format-analysis script: the magic-number
 * classification of a file's bytes and the base64 character check of its
 * encoding (the alphabet of section 4 of RFC 4648, with at most two `=` at
 * the end).
 */
module ImageFormat {

  newtype Byte = b: int | 0 <= b < 256

  datatype Format = Png | Jpeg | Unknown

  /** The first four bytes of a PNG file. */
  const PngSignature: seq<Byte> := [0x89, 0x50, 0x4E, 0x47]

  /** The first two bytes of a JPEG file. */
  const JpegSignature: seq<Byte> := [0xFF, 0xD8]

  /** Reading past the end of a Buffer gives `undefined`, which equals no
      byte, so a short buffer fails every test it cannot satisfy. */
  function DetectFormat(buf: seq<Byte>): (f: Format)
    ensures f == Png <==> PngSignature <= buf
    ensures f == Jpeg <==> !(PngSignature <= buf) && JpegSignature <= buf
  {
    if |buf| >= 4 && buf[0] == 0x89 && buf[1] == 0x50 && buf[2] == 0x4E && buf[3] == 0x47 then
      assert buf[..4] == PngSignature;
      Png
    else if |buf| >= 2 && buf[0] == 0xFF && buf[1] == 0xD8 then
      assert buf[..2] == JpegSignature;
      Jpeg
    else
      Unknown
  }

  /** Only the first four bytes decide the format. */
  lemma {:induction false} FormatIsPrefixOnly(a: seq<Byte>, b: seq<Byte>)
    requires |a| >= 4 && |b| >= 4 && a[..4] == b[..4]
    ensures DetectFormat(a) == DetectFormat(b)
  {
    assert a[0] == b[0] && a[1] == b[1] && a[2] == b[2] && a[3] == b[3] by {
      assert a[..4][0] == b[..4][0] && a[..4][1] == b[..4][1];
      assert a[..4][2] == b[..4][2] && a[..4][3] == b[..4][3];
    }
  }

  /** A buffer too short for either signature is unknown. */
  lemma ShortBufferIsUnknown(buf: seq<Byte>)
    requires |buf| < 2
    ensures DetectFormat(buf) == Unknown
  {
  }

  // ---------------------------------------------------------------------
  // The base64 check `/^[A-Za-z0-9+/]+={0,2}$/`.

  /** A character of the base64 alphabet. */
  predicate IsBase64Char(c: char)
  {
    ('A' <= c <= 'Z') || ('a' <= c <= 'z') || ('0' <= c <= '9') || c == '+' || c == '/'
  }

  predicate AllBase64(s: string)
  {
    forall i :: 0 <= i < |s| ==> IsBase64Char(s[i])
  }

  /** The number of `=` at the end of s. */
  function TrailingPad(s: string): (n: nat)
    ensures n <= |s|
    ensures forall i :: |s| - n <= i < |s| ==> s[i] == '='
    ensures n < |s| ==> s[|s| - n - 1] != '='
  {
    if s == [] || s[|s| - 1] != '=' then 0 else TrailingPad(s[..|s| - 1]) + 1
  }

  /** The check as a scan: strip the padding, then at most two were
      stripped and what is left is one or more alphabet characters. */
  function IsValidBase64(s: string): bool
  {
    var n := TrailingPad(s);
    n <= 2 && |s| - n >= 1 && AllBase64(s[..|s| - n])
  }

  /** The regular expression read as its three alternatives. */
  predicate RegexShape(s: string)
  {
    || (|s| >= 1 && AllBase64(s))
    || (|s| >= 2 && s[|s| - 1] == '=' && AllBase64(s[..|s| - 1]))
    || (|s| >= 3 && s[|s| - 2..] == "==" && AllBase64(s[..|s| - 2]))
  }

  /** The scan accepts exactly what the regular expression matches. */
  lemma ValidBase64MatchesRegex(s: string)
    ensures IsValidBase64(s) <==> RegexShape(s)
  {
    var n := TrailingPad(s);
    if RegexShape(s) {
      if |s| >= 1 && AllBase64(s) {
        assert IsBase64Char(s[|s| - 1]);
        assert n == 0;
        assert s[..|s| - 0] == s;
      } else if |s| >= 2 && s[|s| - 1] == '=' && AllBase64(s[..|s| - 1]) {
        assert s[..|s| - 1][|s| - 2] == s[|s| - 2];
        assert n == 1;
      } else {
        assert s[|s| - 1] == s[|s| - 2..][1] && s[|s| - 2] == s[|s| - 2..][0];
        assert s[..|s| - 2][|s| - 3] == s[|s| - 3];
        assert n == 2;
      }
    }
    if IsValidBase64(s) {
      if n == 0 {
        assert s[..|s|] == s;
      } else if n == 1 {
        assert s[|s| - 1] == '=';
      } else {
        assert s[|s| - 2..] == [s[|s| - 2], s[|s| - 1]];
      }
    }
  }

  /** What the check refuses: the empty string, whitespace anywhere, the
      URL-safe alphabet's `-` and `_`, and more than two `=`. */
  lemma RejectsEmpty()
    ensures !IsValidBase64("")
  {
  }

  lemma RejectsForeignChar(s: string, i: nat)
    requires i < |s| && s[i] != '=' && !IsBase64Char(s[i])
    ensures !IsValidBase64(s)
  {
    var n := TrailingPad(s);
    if i < |s| - n {
      assert s[..|s| - n][i] == s[i];
    }
  }

  lemma RejectsWhitespaceAndUrlSafe(s: string, i: nat)
    requires i < |s| && s[i] in {' ', '\n', '\r', '\t', '-', '_'}
    ensures !IsValidBase64(s)
  {
    RejectsForeignChar(s, i);
  }

  lemma {:induction false} RejectsThreePads(s: string)
    requires |s| >= 3 && s[|s| - 3..] == "==="
    ensures !IsValidBase64(s)
  {
    assert s[|s| - 1] == '=' && s[|s| - 2] == '=' && s[|s| - 3] == '=' by {
      assert s[|s| - 3..][0] == s[|s| - 3] && s[|s| - 3..][1] == s[|s| - 2] && s[|s| - 3..][2] == s[|s| - 1];
    }
    var p := s[..|s| - 1];
    var q := p[..|p| - 1];
    assert p[|p| - 1] == '=' && q[|q| - 1] == '=';
    assert TrailingPad(s) == TrailingPad(q[..|q| - 1]) + 3;
  }

  /** The length need not be a multiple of four. */
  lemma AcceptsUnpaddedOddLength()
    ensures IsValidBase64("A")
    ensures IsValidBase64("QUJD=")
  {
    assert TrailingPad("QUJD=") == 1 by {
      assert "QUJD="[..4] == "QUJD";
    }
    assert "QUJD="[..4] == "QUJD";
  }
}
