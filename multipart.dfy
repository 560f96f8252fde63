/**
  The fallback uploader's request: a multipart/form-data body (RFC 7578) whose parts are
  separated by the boundary delimiters of section 5.1.1 of RFC 2046, built by appending
  piece after piece to a string, and the request headers sent with it.
 */
module Multipart {
  import opened Text

  const CRLF: string := "\r\n"

  /** One body part: its header lines and its content. */
  datatype Part = Part(headers: seq<string>, content: string)

  /** implode("\r\n", lines). */
  function JoinLines(lines: seq<string>): string
  {
    if lines == [] then ""
    else if |lines| == 1 then lines[0]
    else lines[0] + CRLF + JoinLines(lines[1..])
  }

  /** A part as it appears between two delimiters: headers, an empty line, the content. */
  function RenderPart(p: Part): string
  {
    JoinLines(p.headers) + CRLF + CRLF + p.content
  }

  /** "--boundary" CRLF: the line that opens every part. */
  function Opening(boundary: string): string
  {
    "--" + boundary + CRLF
  }

  /** "--boundary--" CRLF: the line that closes the body. */
  function Closing(boundary: string): string
  {
    "--" + boundary + "--" + CRLF
  }

  /**
    The body of section 5.1.1 of RFC 2046 without preamble or epilogue: each part opened by
    "--boundary" CRLF and followed by CRLF, then the closing "--boundary--" CRLF.
   */
  function Encode(boundary: string, parts: seq<Part>): string
  {
    if parts == [] then Closing(boundary)
    else Opening(boundary) + (RenderPart(parts[0]) + (CRLF + Encode(boundary, parts[1..])))
  }

  function Disposition(name: string): string
  {
    "Content-Disposition: form-data; name=\"" + name + "\""
  }

  /** The three form fields Catbox's upload API reads, in the order they are sent. */
  function CatboxParts(userhash: string, filename: string, mime: string, data: string): seq<Part>
  {
    [ Part([Disposition("reqtype")], "fileupload"),
      Part([Disposition("userhash")], userhash),
      Part([FileDisposition(filename), "Content-Type: " + mime], data) ]
  }

  /** The file part's disposition, its name quoted with addslashes. */
  function FileDisposition(filename: string): string
  {
    Disposition("fileToUpload") + "; filename=\"" + AddSlashes(filename) + "\""
  }

  /** The body built by the fallback loop, one `.=` at a time. */
  method BuildBody(boundary: string, userhash: string, filename: string, mime: string, data: string)
    returns (body: string)
    ensures body == Encode(boundary, CatboxParts(userhash, filename, mime, data))
  {
    ghost var parts := CatboxParts(userhash, filename, mime, data);
    body := "";
    body := AppendField(body, boundary, "reqtype", "fileupload");
    ghost var first := body;
    body := AppendField(body, boundary, "userhash", userhash);
    ghost var second := body[|first|..];
    body := AppendFile(body, boundary, filename, mime, data);
    ghost var third := body[|first| + |second|..];
    assert body == first + second + third;
    var eol := CRLF;
    body := body + "--" + boundary + "--" + eol;
    ClosingGroup(first + second + third, boundary);
    EncodeAssembled(boundary, parts, first, second, third);
  }

  /** The `.=` lines that add one plain form field. */
  method AppendField(body: string, boundary: string, name: string, value: string) returns (r: string)
    ensures r == body + (Opening(boundary) + RenderPart(Part([Disposition(name)], value)) + CRLF)
  {
    var eol := CRLF;
    r := body + "--" + boundary + eol;
    r := r + Disposition(name) + eol + eol;
    r := r + value + eol;
    OneHeaderGroup(body, boundary, Disposition(name), value);
  }

  /** The `.=` lines that add the file field, with its Content-Type header. */
  method AppendFile(body: string, boundary: string, filename: string, mime: string, data: string) returns (r: string)
    ensures r == body + (Opening(boundary) + RenderPart(Part([FileDisposition(filename), "Content-Type: " + mime], data)) + CRLF)
  {
    var eol := CRLF;
    r := body + "--" + boundary + eol;
    r := r + FileDisposition(filename) + eol;
    r := r + "Content-Type: " + mime + eol + eol;
    r := r + data + eol;
    TwoHeaderGroup(body, boundary, FileDisposition(filename), "Content-Type: " + mime, data);
  }

  lemma ClosingGroup(prefix: string, boundary: string)
    ensures prefix + "--" + boundary + "--" + CRLF == prefix + Closing(boundary)
  {
  }

  /** Appending a one-header part the way the builder does it, three strings at a time. */
  lemma OneHeaderGroup(prefix: string, boundary: string, header: string, content: string)
    ensures prefix + "--" + boundary + CRLF + header + CRLF + CRLF + content + CRLF ==
      prefix + (Opening(boundary) + RenderPart(Part([header], content)) + CRLF)
  {
    assert JoinLines([header]) == header;
  }

  lemma TwoHeaderGroup(prefix: string, boundary: string, h1: string, h2: string, content: string)
    ensures prefix + "--" + boundary + CRLF + h1 + CRLF + h2 + CRLF + CRLF + content + CRLF ==
      prefix + (Opening(boundary) + RenderPart(Part([h1, h2], content)) + CRLF)
  {
    assert [h1, h2][1..] == [h2];
    assert JoinLines([h1, h2]) == h1 + CRLF + h2;
  }

  /** Encode peels off its first part: opening line, the part, and CRLF. */
  lemma EncodeStep(boundary: string, parts: seq<Part>)
    requires parts != []
    ensures Encode(boundary, parts) == (Opening(boundary) + RenderPart(parts[0]) + CRLF) + Encode(boundary, parts[1..])
  {
    var a, b, c := Opening(boundary), RenderPart(parts[0]), CRLF;
    var d := Encode(boundary, parts[1..]);
    assert a + (b + (c + d)) == (a + b + c) + d;
  }

  lemma EncodeAssembled(boundary: string, parts: seq<Part>, first: string, second: string, third: string)
    requires |parts| == 3
    requires first == Opening(boundary) + RenderPart(parts[0]) + CRLF
    requires second == Opening(boundary) + RenderPart(parts[1]) + CRLF
    requires third == Opening(boundary) + RenderPart(parts[2]) + CRLF
    ensures Encode(boundary, parts) == first + second + third + Closing(boundary)
  {
    var close := Closing(boundary);
    EncodeStep(boundary, parts);
    assert parts[1..][0] == parts[1] && parts[1..][1..] == parts[2..];
    EncodeStep(boundary, parts[1..]);
    assert parts[2..][0] == parts[2] && parts[2..][1..] == [];
    EncodeStep(boundary, parts[2..]);
    assert Encode(boundary, parts) == first + (second + (third + close));
  }

  // ---------------------------------------------------------------------------------------
  // Reading the body back along its delimiters.

  /** The delimiter of section 5.1.1 of RFC 2046: CRLF, two hyphens, the boundary. */
  function Delimiter(boundary: string): string
  {
    CRLF + "--" + boundary
  }

  /** `piece` holds no delimiter, not even one that would start inside it and end after it. */
  predicate Clean(piece: string, boundary: string)
  {
    var d := Delimiter(boundary);
    !Contains(piece + d[..|d| - 1], d)
  }

  /** The pieces between delimiters, as a receiver that cuts along them sees them. */
  function Pieces(boundary: string, parts: seq<Part>): (ps: seq<string>)
    ensures |ps| == |parts| + 1
  {
    if parts == [] then ["--" + CRLF]
    else [CRLF + RenderPart(parts[0])] + Pieces(boundary, parts[1..])
  }

  /** What follows the first delimiter of CRLF + body. */
  function AfterDelimiter(boundary: string, parts: seq<Part>): string
  {
    if parts == [] then "--" + CRLF
    else (CRLF + RenderPart(parts[0])) + Delimiter(boundary) + AfterDelimiter(boundary, parts[1..])
  }

  lemma {:induction false} EncodeAfterDelimiter(boundary: string, parts: seq<Part>)
    ensures CRLF + Encode(boundary, parts) == Delimiter(boundary) + AfterDelimiter(boundary, parts)
  {
    var d := Delimiter(boundary);
    if parts == [] {
      assert CRLF + Closing(boundary) == d + "--" + CRLF;
    } else {
      var piece := CRLF + RenderPart(parts[0]);
      var rest := Encode(boundary, parts[1..]);
      var tail := AfterDelimiter(boundary, parts[1..]);
      EncodeAfterDelimiter(boundary, parts[1..]);
      assert CRLF + rest == d + tail;
      assert CRLF + Opening(boundary) == d + CRLF;
      calc {
        CRLF + Encode(boundary, parts);
        CRLF + (Opening(boundary) + (RenderPart(parts[0]) + (CRLF + rest)));
        { ConcatAssoc(CRLF, Opening(boundary), RenderPart(parts[0]) + (CRLF + rest)); }
        (d + CRLF) + (RenderPart(parts[0]) + (d + tail));
        { ConcatAssoc(d + CRLF, RenderPart(parts[0]), d + tail);
          ConcatAssoc(d, CRLF, RenderPart(parts[0])); }
        (d + piece) + (d + tail);
        { ConcatAssoc(d + piece, d, tail); ConcatAssoc(d, piece, d); }
        d + (piece + d) + tail;
        { ConcatAssoc(d, piece + d, tail); }
        d + AfterDelimiter(boundary, parts);
      }
    }
  }

  /** Cutting what follows the first delimiter yields the parts one by one, then the closing "--". */
  lemma {:induction false} AfterDelimiterSplits(boundary: string, parts: seq<Part>)
    requires forall k :: 0 <= k < |parts| ==> Clean(CRLF + RenderPart(parts[k]), boundary)
    ensures Split(AfterDelimiter(boundary, parts), Delimiter(boundary)) == Pieces(boundary, parts)
  {
    var d := Delimiter(boundary);
    if parts == [] {
      var closing := "--" + CRLF;
      assert !Contains(closing, d) by {
        if |d| <= |closing| {
          assert closing[0..|d|][0] == '-' != d[0];
        }
      }
      SplitWithoutSep(closing, d);
    } else {
      assert Clean(CRLF + RenderPart(parts[0]), boundary);
      SplitAfterPiece(CRLF + RenderPart(parts[0]), d, AfterDelimiter(boundary, parts[1..]));
      AfterDelimiterSplits(boundary, parts[1..]);
    }
  }

  /**
    Cutting CRLF + body along the delimiter gives back the parts, in order and unchanged,
    between an empty preamble and the closing "--", whenever the boundary occurs in no part.
   */
  lemma EncodeSplits(boundary: string, parts: seq<Part>)
    requires forall k :: 0 <= k < |parts| ==> Clean(CRLF + RenderPart(parts[k]), boundary)
    ensures Split(CRLF + Encode(boundary, parts), Delimiter(boundary)) == [""] + Pieces(boundary, parts)
  {
    var d := Delimiter(boundary);
    EncodeAfterDelimiter(boundary, parts);
    assert !Contains("" + d[..|d| - 1], d);
    SplitAfterPiece("", d, AfterDelimiter(boundary, parts));
    assert "" + d + AfterDelimiter(boundary, parts) == d + AfterDelimiter(boundary, parts);
    AfterDelimiterSplits(boundary, parts);
  }

  /** A three-part body cuts into the empty preamble, the three parts and the closing rest. */
  lemma ThreePartBodySplits(boundary: string, parts: seq<Part>)
    requires |parts| == 3
    requires forall k :: 0 <= k < 3 ==> Clean(CRLF + RenderPart(parts[k]), boundary)
    ensures Split(CRLF + Encode(boundary, parts), Delimiter(boundary)) ==
      ["", CRLF + RenderPart(parts[0]), CRLF + RenderPart(parts[1]), CRLF + RenderPart(parts[2]), "--" + CRLF]
  {
    EncodeSplits(boundary, parts);
    ThreePieces(boundary, parts);
  }

  /** The Catbox body in particular: reqtype, userhash and the file, in this order. */
  lemma CatboxBodySplits(boundary: string, userhash: string, filename: string, mime: string, data: string)
    requires forall k :: 0 <= k < 3 ==>
      Clean(CRLF + RenderPart(CatboxParts(userhash, filename, mime, data)[k]), boundary)
    ensures var parts := CatboxParts(userhash, filename, mime, data);
      Split(CRLF + Encode(boundary, parts), Delimiter(boundary)) ==
        ["", CRLF + RenderPart(parts[0]), CRLF + RenderPart(parts[1]), CRLF + RenderPart(parts[2]), "--" + CRLF]
  {
    ThreePartBodySplits(boundary, CatboxParts(userhash, filename, mime, data));
  }

  lemma ThreePieces(boundary: string, parts: seq<Part>)
    requires |parts| == 3
    ensures [""] + Pieces(boundary, parts) ==
      ["", CRLF + RenderPart(parts[0]), CRLF + RenderPart(parts[1]), CRLF + RenderPart(parts[2]), "--" + CRLF]
  {
    var last := "--" + CRLF;
    assert parts[2..][1..] == [];
    assert Pieces(boundary, parts[2..]) == [CRLF + RenderPart(parts[2]), last];
    assert parts[1..][1..] == parts[2..];
    assert Pieces(boundary, parts[1..]) == [CRLF + RenderPart(parts[1]), CRLF + RenderPart(parts[2]), last];
  }

  // ---------------------------------------------------------------------------------------
  // Request headers.

  function Boundary(random: string): string
  {
    "----WebKitFormBoundary" + random
  }

  const LengthField: string := "Content-Length: "

  /** The header lines sent with the body. */
  function RequestHeaders(boundary: string, body: string): seq<string>
  {
    [ "Content-Type: multipart/form-data; boundary=" + boundary,
      LengthField + IntToString(|body|),
      "User-Agent: PHP-StreamUploader/1.0",
      "Connection: close" ]
  }

  /** The Content-Length header announces exactly the body's length in bytes. */
  lemma ContentLengthMatches(boundary: string, body: string)
    ensures StartsWith(RequestHeaders(boundary, body)[1], LengthField)
    ensures var value := RequestHeaders(boundary, body)[1][|LengthField|..];
      (forall k :: 0 <= k < |value| ==> IsDigit(value[k])) && ParseNat(value) == |body|
  {
    var header := RequestHeaders(boundary, body)[1];
    assert header[|LengthField|..] == NatToString(|body|);
    ParseNatToString(|body|);
  }

  // ---------------------------------------------------------------------------------------
  // PHP addslashes, used to quote the file name inside the Content-Disposition header.

  function Escape(c: char): string
  {
    if c == '\0' then "\\0"
    else if c == '\'' || c == '"' || c == '\\' then ['\\', c]
    else [c]
  }

  function AddSlashes(s: string): (r: string)
    ensures |s| <= |r| <= 2 * |s|
  {
    if s == [] then [] else Escape(s[0]) + AddSlashes(s[1..])
  }

  /** PHP stripslashes: a backslash takes the next char literally, "\0" stands for NUL. */
  function StripSlashes(s: string): string
  {
    if s == [] then []
    else if s[0] == '\\' then
      if |s| == 1 then []
      else (if s[1] == '0' then ['\0'] else [s[1]]) + StripSlashes(s[2..])
    else [s[0]] + StripSlashes(s[1..])
  }

  lemma StripEscape(c: char, t: string)
    ensures StripSlashes(Escape(c) + t) == [c] + StripSlashes(t)
  {
    var e := Escape(c) + t;
    if c == '\0' || c == '\'' || c == '"' || c == '\\' {
      assert e[2..] == t;
    } else {
      assert e[1..] == t;
    }
  }

  /** The quoting is lossless: stripslashes recovers the original file name. */
  lemma {:induction false} StripAddSlashes(s: string)
    ensures StripSlashes(AddSlashes(s)) == s
  {
    if s != [] {
      StripEscape(s[0], AddSlashes(s[1..]));
      StripAddSlashes(s[1..]);
      assert s == [s[0]] + s[1..];
    }
  }

  /** Every quote in the escaped file name comes right after a backslash. */
  lemma {:induction false} AddSlashesQuotes(s: string, k: int)
    requires 0 <= k < |AddSlashes(s)| && AddSlashes(s)[k] == '"'
    ensures k > 0 && AddSlashes(s)[k - 1] == '\\'
  {
    var e := Escape(s[0]);
    if k >= |e| {
      AddSlashesQuotes(s[1..], k - |e|);
    }
  }
}
