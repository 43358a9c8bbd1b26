/** Every way to write an aws-chunked body that the decoders accept. */
module AwsEncoding {
  import opened Results
  import opened RangePlan
  import opened Integers
  import opened PageStreams
  import opened AwsChunked

  /** The line before the data of a chunk: its size in hexadecimal, an extension,
      and either line end. */
  datatype Head = Head(size: seq<byte>, extension: seq<byte>, crlf: bool)

  datatype Trailers = Blank(crlf: bool) | Trailer(line: seq<byte>, rest: Trailers)

  datatype Body = Last(head: Head, trailers: Trailers) | Chunk(head: Head, data: seq<byte>, rest: Body)

  /** What may stand between a size and the end of its line. */
  predicate IsExtension(e: seq<byte>) {
    LF !in e && (e == [] || e[0] == SEMICOLON)
  }

  /** The size is any spelling of `n`: upper or lower case, with leading zeros or a
      sign. Before a bare line feed there is no carriage return. */
  predicate IsHead(h: Head, n: int) {
    && ParseInt(AsText(h.size), 16) == Some(n)
    && IsExtension(h.extension)
    && (h.crlf || h.extension == [] || h.extension[|h.extension| - 1] != CR)
  }

  /** A trailer line, without its line feed, is not the empty line. */
  predicate AreTrailers(t: Trailers) {
    t.Trailer? ==> LF !in t.line && t.line != [] && t.line != [CR] && AreTrailers(t.rest)
  }

  predicate IsBody(b: Body) {
    match b
    case Last(head, trailers) => IsHead(head, 0) && AreTrailers(trailers)
    case Chunk(head, data, rest) => data != [] && IsHead(head, |data|) && IsBody(rest)
  }

  function LineEnd(crlf: bool): seq<byte> {
    if crlf then CRLF else [LF]
  }

  function HeadLine(h: Head): seq<byte> {
    h.size + h.extension + LineEnd(h.crlf)
  }

  function EncodeTrailers(t: Trailers): seq<byte> {
    match t
    case Blank(crlf) => LineEnd(crlf)
    case Trailer(line, rest) => line + [LF] + EncodeTrailers(rest)
  }

  function Encode(b: Body): seq<byte> {
    match b
    case Last(head, trailers) => HeadLine(head) + EncodeTrailers(trailers)
    case Chunk(head, data, rest) => HeadLine(head) + (data + (CRLF + Encode(rest)))
  }

  function DataOf(b: Body): seq<byte> {
    match b
    case Last(_, _) => []
    case Chunk(_, data, rest) => data + DataOf(rest)
  }

  // ------------------------------------------------------------------ the lines

  lemma SizeIsPlain(size: seq<byte>)
    requires ParseInt(AsText(size), 16).Some?
    ensures size != [] && LF !in size && CR !in size && SEMICOLON !in size
  {
    var text := AsText(size);
    var digits := if Signed(text) then text[1..] else text;
    forall i | 0 <= i < |size|
      ensures size[i] != LF && size[i] != CR && size[i] != SEMICOLON
    {
      assert text[i] == size[i] as char;
      if i > 0 || !Signed(text) {
        assert text[i] == digits[if Signed(text) then i - 1 else i];
        assert Digit(text[i], 16).Some?;
      }
    }
  }

  lemma SizeIsCut(h: Head, n: int)
    requires IsHead(h, n)
    ensures
      var text := h.size + h.extension;
      text[..IndexOf(text, SEMICOLON)] == h.size
  {
    var text := h.size + h.extension;
    SizeIsPlain(h.size);
    if h.extension == [] {
      assert text == h.size;
      FirstIndex(h.size, SEMICOLON, []);
    } else {
      assert text == h.size + [SEMICOLON] + h.extension[1..];
      FirstIndex(h.size, SEMICOLON, h.extension[1..]);
    }
  }

  lemma EndIsTrimmed(text: seq<byte>, crlf: bool)
    requires crlf || text == [] || text[|text| - 1] != CR
    ensures TrimSuffix(TrimSuffix(text + LineEnd(crlf), LF), CR) == text
  {
    if crlf {
      assert text + CRLF == (text + [CR]) + [LF];
      assert TrimSuffix(text + CRLF, LF) == text + [CR];
      assert TrimSuffix(text + [CR], CR) == text;
    } else {
      assert TrimSuffix(text + [LF], LF) == text;
    }
  }

  lemma EndIsRead(text: seq<byte>, crlf: bool, rest: seq<byte>)
    requires LF !in text
    ensures ReadLine(text + LineEnd(crlf) + rest) == Some(Line(text + LineEnd(crlf), rest))
  {
    if crlf {
      LineIsRead(text + [CR], rest);
      assert text + CRLF == text + [CR] + [LF];
    } else {
      LineIsRead(text, rest);
    }
  }

  lemma HeadIsRead(h: Head, n: int, rest: seq<byte>)
    requires IsHead(h, n)
    ensures ReadLine(HeadLine(h) + rest) == Some(Line(HeadLine(h), rest))
    ensures ChunkSize(HeadLine(h)) == Some(n)
  {
    var text := h.size + h.extension;
    SizeIsPlain(h.size);
    EndIsRead(text, h.crlf, rest);
    assert h.extension != [] ==> text[|text| - 1] == h.extension[|h.extension| - 1];
    EndIsTrimmed(text, h.crlf);
    SizeIsCut(h, n);
  }

  lemma EndOf(text: seq<byte>)
    ensures text + [LF] == TrimSuffix(text, CR) + LineEnd(text != TrimSuffix(text, CR))
  {
    var trimmed := TrimSuffix(text, CR);
    if text != trimmed {
      assert text == trimmed + [CR];
    }
  }

  lemma ExtensionOf(text: seq<byte>, i: nat, size: seq<byte>, extension: seq<byte>)
    requires LF !in text && i <= |text| && (i < |text| ==> text[i] == SEMICOLON)
    requires size == text[..i] && extension == text[i..]
    ensures size + extension == text && IsExtension(extension)
    ensures extension != [] ==> extension[|extension| - 1] == text[|text| - 1]
  {
  }

  lemma HeadOfText(text: seq<byte>, crlf: bool, n: int) returns (h: Head)
    requires LF !in text && (crlf || text == [] || text[|text| - 1] != CR)
    requires ParseInt(AsText(text[..IndexOf(text, SEMICOLON)]), 16) == Some(n)
    ensures IsHead(h, n) && h.size + h.extension == text && h.crlf == crlf
  {
    var i := IndexOf(text, SEMICOLON);
    var size, extension := text[..i], text[i..];
    ExtensionOf(text, i, size, extension);
    h := Head(size, extension, crlf);
  }

  /** A line with a size is a head. */
  lemma HeadOfLine(text: seq<byte>, n: int) returns (h: Head)
    requires LF !in text && ChunkSize(text + [LF]) == Some(n)
    ensures IsHead(h, n) && HeadLine(h) == text + [LF]
  {
    var trimmed := TrimSuffix(text, CR);
    assert TrimSuffix(text + [LF], LF) == text;
    EndOf(text);
    h := HeadOfText(trimmed, text != trimmed, n);
  }

  lemma LineOf(s: seq<byte>) returns (text: seq<byte>)
    requires ReadLine(s).Some?
    ensures LF !in text && ReadLine(s).value.text == text + [LF]
    ensures s == text + [LF] + ReadLine(s).value.rest
  {
    var i := IndexOf(s, LF);
    text := s[..i];
    assert s[..i + 1] == s[..i] + [LF];
  }

  // -------------------------------------------------------- decoding an encoding

  lemma {:induction false} TrailersAreRead(t: Trailers, tail: seq<byte>)
    requires AreTrailers(t)
    ensures AfterTrailers(EncodeTrailers(t) + tail) == Some(tail)
  {
    match t
    case Blank(crlf) =>
      EndIsRead([], crlf, tail);
      assert [] + LineEnd(crlf) == LineEnd(crlf);
    case Trailer(line, rest) =>
      var more := EncodeTrailers(rest) + tail;
      assert EncodeTrailers(t) + tail == line + [LF] + more;
      LineIsRead(line, more);
      assert (line + [LF])[..|line|] == line;
      TrailersAreRead(rest, tail);
  }

  lemma DataIsRead(data: seq<byte>, rest: seq<byte>, mode: Mode)
    ensures Resume(data + (CRLF + rest), |data|, mode) == Prepend(data, Decode(rest, mode))
  {
    var s := data + (CRLF + rest);
    assert s[..|data|] == data && s[|data|..] == CRLF + rest;
    CrlfIsRead(rest);
  }

  lemma ChunkIsRead(h: Head, data: seq<byte>, rest: seq<byte>, mode: Mode)
    requires data != [] && IsHead(h, |data|)
    ensures Decode(HeadLine(h) + (data + (CRLF + rest)), mode) == Prepend(data, Decode(rest, mode))
  {
    var body := data + (CRLF + rest);
    HeadIsRead(h, |data|, body);
    DataIsRead(data, rest, mode);
    assert Decode(HeadLine(h) + body, mode) == Resume(body, |data|, mode);
  }

  /** Both decoders invert the encoder, for any split of the payload into chunks,
      any spelling of the sizes, any extensions, either line end, any trailers and
      anything after the body. */
  lemma {:induction false} DecodersInvertEncoder(b: Body, tail: seq<byte>, mode: Mode)
    requires IsBody(b)
    ensures Decode(Encode(b) + tail, mode) == Decoded(DataOf(b), Complete(tail))
  {
    match b
    case Last(head, trailers) =>
      var rest := EncodeTrailers(trailers) + tail;
      assert Encode(b) + tail == HeadLine(head) + rest;
      HeadIsRead(head, 0, rest);
      TrailersAreRead(trailers, tail);
    case Chunk(head, data, more) =>
      var rest := Encode(more) + tail;
      assert Encode(b) + tail == HeadLine(head) + (data + (CRLF + rest));
      ChunkIsRead(head, data, rest, mode);
      DecodersInvertEncoder(more, tail, mode);
  }

  // ------------------------------------------------------ nothing else is decoded

  lemma NotBlank(text: seq<byte>)
    requires text + [LF] != CRLF && text + [LF] != [LF]
    ensures text != [] && text != [CR]
  {
  }

  lemma TrailerLine(text: seq<byte>, more: seq<byte>, tail: seq<byte>)
    ensures text + [LF] + (more + tail) == text + [LF] + more + tail
  {
  }

  lemma {:induction false} TrailersOf(s: seq<byte>) returns (t: Trailers)
    requires AfterTrailers(s).Some?
    ensures AreTrailers(t) && s == EncodeTrailers(t) + AfterTrailers(s).value
    decreases |s|
  {
    var l := ReadLine(s).value;
    var text := LineOf(s);
    if l.text == CRLF || l.text == [LF] {
      t := Blank(l.text == CRLF);
    } else {
      var more := TrailersOf(l.rest);
      t := Trailer(text, more);
      NotBlank(text);
      TrailerLine(text, EncodeTrailers(more), AfterTrailers(s).value);
    }
  }

  lemma DataOfChunk(s: seq<byte>, n: nat, mode: Mode) returns (rest: seq<byte>)
    requires Resume(s, n, mode).end.Complete?
    ensures n <= |s| && s == s[..n] + (CRLF + rest)
    ensures Resume(s, n, mode) == Prepend(s[..n], Decode(rest, mode))
  {
    var l := ReadLine(s[n..]).value;
    rest := l.rest;
    assert s == s[..n] + s[n..];
  }

  /** A body that is read to its end is an encoding of the bytes read. */
  lemma {:induction false} OnlyEncodingsDecode(s: seq<byte>) returns (b: Body)
    requires Decode(s, Streaming).end.Complete?
    ensures IsBody(b) && DataOf(b) == Decode(s, Streaming).data
    ensures s == Encode(b) + Decode(s, Streaming).end.rest
    decreases |s|
  {
    var l := ReadLine(s).value;
    var text := LineOf(s);
    var n := ChunkSize(l.text).value;
    var h := HeadOfLine(text, n);
    if n == 0 {
      var t := TrailersOf(l.rest);
      b := Last(h, t);
      RegroupLast(HeadLine(h), EncodeTrailers(t), AfterTrailers(l.rest).value);
    } else {
      var rest := DataOfChunk(l.rest, n, Streaming);
      var more := OnlyEncodingsDecode(rest);
      b := Chunk(h, l.rest[..n], more);
      Regroup(HeadLine(h), l.rest[..n], Encode(more), Decode(s, Streaming).end.rest);
    }
  }

  lemma Regroup(head: seq<byte>, data: seq<byte>, more: seq<byte>, tail: seq<byte>)
    ensures head + (data + (CRLF + (more + tail))) == head + (data + (CRLF + more)) + tail
  {
  }

  lemma RegroupLast(head: seq<byte>, trailers: seq<byte>, tail: seq<byte>)
    ensures head + (trailers + tail) == head + trailers + tail
  {
  }

  ghost predicate Encodes(b: Body, data: seq<byte>, s: seq<byte>, tail: seq<byte>) {
    IsBody(b) && DataOf(b) == data && s == Encode(b) + tail
  }

  /** The streaming reader accepts exactly the encodings. */
  lemma DecodesExactly(s: seq<byte>, data: seq<byte>, tail: seq<byte>)
    ensures Decode(s, Streaming) == Decoded(data, Complete(tail)) <==> exists b :: Encodes(b, data, s, tail)
  {
    if Decode(s, Streaming) == Decoded(data, Complete(tail)) {
      var b := OnlyEncodingsDecode(s);
      assert Encodes(b, data, s, tail);
    }
    if b :| Encodes(b, data, s, tail) {
      DecodersInvertEncoder(b, tail, Streaming);
    }
  }

  /** Every length has a head: its numeral in upper, lower or mixed case. */
  lemma NumeralIsHead(n: nat, digits: string, size: seq<byte>, extension: seq<byte>, crlf: bool)
    requires HexDigits(digits) && n <= MAX_INT64 && AsText(size) == Hex(n, digits)
    requires IsExtension(extension) && (crlf || extension == [] || extension[|extension| - 1] != CR)
    ensures IsHead(Head(size, extension, crlf), n)
  {
    HexRoundTrip(n, digits);
    PlainParses(Hex(n, digits), 16, n);
  }

  /** A body cut short after the first `k` bytes of a chunk. With buffers of any
      size that divides `k` it reads like a complete one. */
  lemma CutInsideChunk(h: Head, data: seq<byte>, k: nat, mode: Mode)
    requires k < |data| && IsHead(h, |data|)
    ensures
      var s := HeadLine(h) + data[..k];
      Decode(s, mode) == Decoded(data[..k], Truncated) && LayoutOf(s) == Cut(k)
  {
    HeadIsRead(h, |data|, data[..k]);
  }
}
