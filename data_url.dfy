/**
 * The `data:` URL of the prediction test script: building it from a file
 * name and a base64 payload, and taking it apart again into the payload
 * and the MIME type.
 */
module DataUrl {
  import opened Wrappers
  import opened Text

  // ---------------------------------------------------------------------
  // Building.

  /** The index of the last `c` in `s`. */
  function LastIndexOf(s: string, c: char): (r: Option<nat>)
    ensures r.Some? ==> r.value < |s| && s[r.value] == c && forall i :: r.value < i < |s| ==> s[i] != c
    ensures r.None? ==> forall i :: 0 <= i < |s| ==> s[i] != c
  {
    if s == [] then None
    else if s[|s| - 1] == c then Some(|s| - 1)
    else LastIndexOf(s[..|s| - 1], c)
  }

  /** The path without its trailing slashes. */
  function TrimTrailingSlashes(s: string): (r: string)
    ensures r <= s && (r == [] || r[|r| - 1] != '/')
    ensures forall i :: |r| <= i < |s| ==> s[i] == '/'
  {
    if s == [] || s[|s| - 1] != '/' then s else TrimTrailingSlashes(s[..|s| - 1])
  }

  /** The last path segment, trailing slashes ignored. */
  function BaseName(path: string): (b: string)
    ensures '/' !in b
  {
    var p := TrimTrailingSlashes(path);
    match LastIndexOf(p, '/')
    case None => p
    case Some(k) => p[k + 1..]
  }

  /** Node's `path.extname` on a POSIX path: the last segment from its last
      dot on; empty when the segment has no dot, when its only leading dot
      is its first character, or when the segment is `..`. */
  function Extname(path: string): string
  {
    var b := BaseName(path);
    if b == ".." then ""
    else
      match LastIndexOf(b, '.')
      case None => ""
      case Some(d) => if d == 0 then "" else b[d..]
  }

  /** PNG for a `.png` extension in any letter case, JPEG for anything
      else. */
  function MimeTypeFor(path: string): (m: string)
    ensures m == "image/png" || m == "image/jpeg"
    ensures m == "image/png" <==> Lower(Extname(path)) == ".png"
  {
    if Lower(Extname(path)) == ".png" then "image/png" else "image/jpeg"
  }

  /** `imageFileToDataURL` once the file is read and encoded. */
  function ImageDataUrl(path: string, payload: string): string
  {
    "data:" + MimeTypeFor(path) + ";base64," + payload
  }

  // ---------------------------------------------------------------------
  // Parsing.

  datatype ProcessedImage = ProcessedImage(content: string, mimeType: string)

  datatype DataUrlError = InvalidBase64DataFormat | CouldNotDetermineMimeType

  /** The lazy `(.*?);` after a colon: the index of the first `;` in s,
      provided no line terminator comes before it. */
  function LazyToSemicolon(s: string): (r: Option<nat>)
    ensures r.Some? ==>
              && r.value < |s| && s[r.value] == ';'
              && forall k :: 0 <= k < r.value ==> s[k] != ';' && !IsLineTerminator(s[k])
    ensures r.None? ==>
              forall j :: 0 <= j < |s| && s[j] == ';' ==> exists k :: 0 <= k < j && IsLineTerminator(s[k])
  {
    if s == [] then None
    else if s[0] == ';' then Some(0)
    else if IsLineTerminator(s[0]) then None
    else match LazyToSemicolon(s[1..])
      case None => None
      case Some(j) => Some(j + 1)
  }

  /** The first capture group of `/:(.*?);/` on h: the leftmost colon from
      which the lazy group reaches a `;`. */
  function MimeMatch(h: string): Option<string>
  {
    if h == [] then None
    else if h[0] == ':' && LazyToSemicolon(h[1..]).Some? then
      Some(h[1..][..LazyToSemicolon(h[1..]).value])
    else MimeMatch(h[1..])
  }

  /** `processDataUrl` */
  function ProcessDataUrl(dataUrl: string): (r: Result<ProcessedImage, DataUrlError>)
    ensures r.Ok? <==> Count(dataUrl, ',') == 1 && MimeMatch(SplitOn(dataUrl, ',')[0]).Some?
    ensures r == Err(InvalidBase64DataFormat) <==> Count(dataUrl, ',') != 1
    ensures r == Err(CouldNotDetermineMimeType) <==> Count(dataUrl, ',') == 1 && MimeMatch(SplitOn(dataUrl, ',')[0]).None?
    ensures r.Ok? ==> r.value == ProcessedImage(SplitOn(dataUrl, ',')[1], MimeMatch(SplitOn(dataUrl, ',')[0]).value)
    ensures r.Ok? ==> ',' !in r.value.content
  {
    var parts := SplitOn(dataUrl, ',');
    if |parts| != 2 then Err(InvalidBase64DataFormat)
    else
      match MimeMatch(parts[0])
      case None => Err(CouldNotDetermineMimeType)
      case Some(m) => Ok(ProcessedImage(parts[1], m))
  }

  // ---------------------------------------------------------------------
  // What the two promise.

  /** A colon at i from which the lazy group reaches a `;`. */
  predicate UsableColon(h: string, i: nat)
    requires i < |h|
  {
    h[i] == ':' && LazyToSemicolon(h[i + 1..]).Some?
  }

  /** The text the group captures from a usable colon at i. */
  function GroupAt(h: string, i: nat): string
    requires i < |h| && UsableColon(h, i)
  {
    h[i + 1..][..LazyToSemicolon(h[i + 1..]).value]
  }

  lemma ShiftColon(h: string, i: nat)
    requires 1 <= i < |h|
    ensures UsableColon(h, i) == UsableColon(h[1..], i - 1)
    ensures UsableColon(h, i) ==> GroupAt(h, i) == GroupAt(h[1..], i - 1)
  {
    assert h[i + 1..] == h[1..][i..];
  }

  /** No colon before i is usable. */
  predicate NoUsableBefore(h: string, i: nat)
    requires i <= |h|
  {
    forall j :: 0 <= j < i ==> !UsableColon(h, j)
  }

  lemma ShiftNoUsable(h: string, i: nat)
    requires 1 <= i <= |h| && !UsableColon(h, 0)
    ensures NoUsableBefore(h, i) <==> NoUsableBefore(h[1..], i - 1)
  {
    forall j | 1 <= j < i {
      ShiftColon(h, j);
    }
    if !NoUsableBefore(h[1..], i - 1) {
      var j :| 0 <= j < i - 1 && UsableColon(h[1..], j);
      ShiftColon(h, j + 1);
    }
  }

  /** The match reports the group of the leftmost usable colon, and there
      is a match exactly when some colon is usable. */
  lemma {:induction false} MimeMatchSpec(h: string)
    ensures MimeMatch(h).Some? <==> !NoUsableBefore(h, |h|)
    ensures MimeMatch(h).Some? ==>
              exists i :: 0 <= i < |h| && UsableColon(h, i) && NoUsableBefore(h, i)
                && MimeMatch(h).value == GroupAt(h, i)
    decreases |h|
  {
    if h != [] {
      var t := h[1..];
      MimeMatchSpec(t);
      if UsableColon(h, 0) {
        assert h[0 + 1..] == t;
        assert NoUsableBefore(h, 0);
      } else {
        ShiftNoUsable(h, |h|);
        if MimeMatch(t).Some? {
          var i :| 0 <= i < |t| && UsableColon(t, i) && NoUsableBefore(t, i)
                  && MimeMatch(t).value == GroupAt(t, i);
          ShiftColon(h, i + 1);
          ShiftNoUsable(h, i + 1);
        }
      }
    }
  }

  /** Parsing inverts building for any header text: the payload comes back
      verbatim and the MIME type is the text between `data:` and `;`. */
  lemma ProcessDataUrlRoundTrip(mime: string, payload: string)
    requires ',' !in mime && ';' !in mime && forall c :: c in mime ==> !IsLineTerminator(c)
    requires ',' !in payload
    ensures ProcessDataUrl("data:" + mime + ";base64," + payload) == Ok(ProcessedImage(payload, mime))
  {
    var header := "data:" + mime + ";base64";
    assert ',' !in header by {
      assert forall c :: c in header ==> c in "data:" || c in mime || c in ";base64";
    }
    assert "data:" + mime + ";base64," + payload == header + [','] + payload;
    SplitOnFirst(header, ',', payload);
    SplitOnAbsent(payload, ',');
    var s := mime + ";base64";
    assert s[|mime|] == ';';
    LazyPastMime(mime, ";base64");
    assert header == "data" + ([':'] + s);
    MimeMatchAfter("data", s);
    assert s[..|mime|] == mime;
  }

  lemma LazyPastMime(mime: string, rest: string)
    requires ';' !in mime && forall c :: c in mime ==> !IsLineTerminator(c)
    requires rest != [] && rest[0] == ';'
    ensures LazyToSemicolon(mime + rest) == Some(|mime|)
    decreases |mime|
  {
    if mime == [] {
      assert mime + rest == rest;
    } else {
      assert (mime + rest)[1..] == mime[1..] + rest;
      assert mime[0] in mime;
      LazyPastMime(mime[1..], rest);
    }
  }

  /** A prefix without a colon does not move the match. */
  lemma MimeMatchAfter(prefix: string, s: string)
    requires ':' !in prefix && LazyToSemicolon(s).Some?
    ensures MimeMatch(prefix + ([':'] + s)) == Some(s[..LazyToSemicolon(s).value])
    decreases |prefix|
  {
    if prefix == [] {
      assert ([] + ([':'] + s))[1..] == s;
    } else {
      assert (prefix + ([':'] + s))[1..] == prefix[1..] + ([':'] + s);
      assert prefix[0] in prefix;
      MimeMatchAfter(prefix[1..], s);
    }
  }

  lemma PlainMimeType(m: string)
    requires m == "image/png" || m == "image/jpeg"
    ensures ',' !in m && ';' !in m && forall c :: c in m ==> !IsLineTerminator(c)
  {
    forall c | c in m ensures 'a' <= c <= 'z' || c == '/' {
      var k :| 0 <= k < |m| && m[k] == c;
    }
  }

  /** A URL built from a base64 payload, which never holds a comma, parses
      back to that payload and to the MIME type chosen for the file. */
  lemma ImageDataUrlRoundTrip(path: string, payload: string)
    requires ',' !in payload
    ensures ProcessDataUrl(ImageDataUrl(path, payload)) == Ok(ProcessedImage(payload, MimeTypeFor(path)))
  {
    var m := MimeTypeFor(path);
    PlainMimeType(m);
    ProcessDataUrlRoundTrip(m, payload);
  }

  /** The base name is the end of the path once trailing slashes are
      dropped: the whole of it, or the part after its last slash. */
  lemma BaseNameIsSuffix(path: string)
    ensures var p := TrimTrailingSlashes(path); var b := BaseName(path);
      && |b| <= |p| && b == p[|p| - |b|..]
      && (|b| == |p| || p[|p| - |b| - 1] == '/')
  {
    var p := TrimTrailingSlashes(path);
    match LastIndexOf(p, '/')
    case None =>
    case Some(k) =>
      assert BaseName(path) == p[k + 1..];
      assert |p| - |p[k + 1..]| - 1 == k;
  }

  /** The extension is empty or a dot followed by no further dot or slash,
      taken from the end of the path once trailing slashes are dropped. It
      is empty exactly when the base name is `..` or has no dot after its
      first character. */
  lemma ExtnameSpec(path: string)
    ensures var e := Extname(path);
      e == [] || (e[0] == '.' && '.' !in e[1..] && '/' !in e && e <= TrimTrailingSlashes(path)[|TrimTrailingSlashes(path)| - |e|..])
    ensures var e := Extname(path); var b := BaseName(path);
      e != [] <==> b != ".." && exists d :: 0 < d < |b| && b[d] == '.'
  {
    var p := TrimTrailingSlashes(path);
    var b := BaseName(path);
    BaseNameIsSuffix(path);
    var e := Extname(path);
    if e != [] {
      var d := LastIndexOf(b, '.').value;
      assert e == b[d..];
      assert forall c :: c in e[1..] ==> c in b[d + 1..];
      assert e == p[|p| - |e|..];
    }
  }

  /** Examples of the MIME choice: the case of the extension does not
      matter, a trailing slash is ignored, a file named only `.png` has no
      extension, and only the last extension counts. */
  lemma UpperCaseExtension()
    ensures MimeTypeFor("scan.PNG") == "image/png"
  {
    UpperExtname();
    LowerPng();
  }

  lemma UpperExtname()
    ensures Extname("scan.PNG") == ".PNG"
  {
    assert BaseName("scan.PNG") == "scan.PNG";
    assert "scan.PNG"[4] == '.';
  }

  lemma LowerPng()
    ensures Lower(".PNG") == ".png" && Lower(".png") == ".png"
  {
  }

  lemma TrailingSlashIgnored()
    ensures MimeTypeFor("img/a.png/") == "image/png"
  {
    SlashedExtname();
    LowerPng();
  }

  lemma SlashedExtname()
    ensures Extname("img/a.png/") == ".png"
  {
    SlashedBaseName();
    assert "a.png"[1] == '.';
  }

  lemma SlashedBaseName()
    ensures BaseName("img/a.png/") == "a.png"
  {
    assert TrimTrailingSlashes("img/a.png/") == "img/a.png";
    assert "img/a.png"[3] == '/';
    assert LastIndexOf("img/a.png", '/') == Some(3);
  }

  lemma DotFileHasNoExtension()
    ensures MimeTypeFor(".png") == "image/jpeg"
  {
    assert BaseName(".png") == ".png";
    assert ".png"[0] == '.' && forall i :: 0 < i < 4 ==> ".png"[i] != '.';
    assert LastIndexOf(".png", '.') == Some(0);
    assert Lower("") == "";
  }

  lemma LastExtensionCounts()
    ensures MimeTypeFor("a.png.b") == "image/jpeg"
  {
    LastExtname();
    assert Lower(".b") == ".b";
  }

  lemma LastExtname()
    ensures Extname("a.png.b") == ".b"
  {
    assert BaseName("a.png.b") == "a.png.b";
    assert "a.png.b"[5] == '.';
  }
}
