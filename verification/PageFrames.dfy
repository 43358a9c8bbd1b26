/** The framed page stream between peers: its encoding and what a reader accepts. */
module PageFrames {
  import opened RangePlan
  import opened PageStreams

  datatype Frame = Frame(index: nat, data: seq<byte>)

  // ------------------------------------------------------------- big endian

  function Pow256(k: nat): nat {
    if k == 0 then 1 else 256 * Pow256(k - 1)
  }

  function BigEndian(n: nat, k: nat): (s: seq<byte>)
    ensures |s| == k
  {
    if k == 0 then [] else BigEndian(n / 256, k - 1) + [n % 256]
  }

  function FromBigEndian(s: seq<byte>): nat {
    if s == [] then 0 else FromBigEndian(s[..|s| - 1]) * 256 + s[|s| - 1]
  }

  lemma {:induction false} BigEndianRoundTrip(n: nat, k: nat)
    requires n < Pow256(k)
    ensures FromBigEndian(BigEndian(n, k)) == n
    decreases k
  {
    if k > 0 {
      BigEndianRoundTrip(n / 256, k - 1);
      var s := BigEndian(n, k);
      assert s[..k - 1] == BigEndian(n / 256, k - 1);
    }
  }

  lemma {:induction false} BigEndianIsOnly(s: seq<byte>)
    ensures FromBigEndian(s) < Pow256(|s|)
    ensures BigEndian(FromBigEndian(s), |s|) == s
    decreases |s|
  {
    if s != [] {
      BigEndianIsOnly(s[..|s| - 1]);
      assert s == s[..|s| - 1] + [s[|s| - 1]];
    }
  }

  lemma Pow256Of8()
    ensures Pow256(8) == TWO_64
  {
    assert Pow256(2) == 65536;
    assert Pow256(4) == 65536 * 65536;
    assert Pow256(6) == 65536 * 65536 * 65536;
  }

  // ---------------------------------------------------------------- encoding

  const HEADER: seq<byte> := [83, 51, 80, 70, 0, 1]
  const TYPE_PAGE: byte := 1
  const TYPE_END: byte := 2

  function Meta(index: nat, size: nat): (s: seq<byte>)
    ensures |s| == 17
  {
    [TYPE_PAGE] + BigEndian(index, 8) + BigEndian(size, 8)
  }

  function EncodePage(f: Frame): seq<byte> {
    Meta(f.index, |f.data|) + f.data
  }

  function EncodePages(pages: seq<Frame>): seq<byte> {
    if pages == [] then [] else EncodePage(pages[0]) + EncodePages(pages[1..])
  }

  /** The bytes after the stream header. */
  function EncodeBody(pages: seq<Frame>): seq<byte> {
    EncodePages(pages) + [TYPE_END]
  }

  function Indexes(pages: seq<Frame>): (s: seq<nat>)
    ensures |s| == |pages|
    ensures forall i :: 0 <= i < |s| ==> s[i] == pages[i].index
  {
    seq(|pages|, i requires 0 <= i < |pages| => pages[i].index)
  }

  predicate Increasing(s: seq<nat>) {
    forall i, j :: 0 <= i < j < |s| ==> s[i] < s[j]
  }

  /** What a writer may send to a reader that expects these pages. */
  predicate Sendable(pages: seq<Frame>, maxPageBytes: nat) {
    && Increasing(Indexes(pages))
    && forall i :: 0 <= i < |pages| ==> pages[i].index <= MAX_INT64 && |pages[i].data| <= maxPageBytes
  }

  // ------------------------------------------------------------------ reading

  datatype Problem = BadVersion | Invalid | Truncated | Oversized | Duplicate | Unexpected | OutOfOrder | UnexpectedEnd

  datatype Next = Page(index: nat, size: nat) | Eof | Fail(problem: Problem)

  /** Read the frame header at the front of `rest`, when the pages
      `expected[..next]` have been seen. */
  function NextFrame(rest: seq<byte>, expected: seq<nat>, next: nat, maxPageBytes: nat): (n: Next)
    requires next <= |expected|
    ensures n.Page? ==> |rest| >= 17 && next < |expected|
    ensures n.Eof? ==> |rest| >= 1
  {
    if |rest| == 0 then Fail(Truncated)
    else if rest[0] == TYPE_END then
      if next != |expected| then Fail(UnexpectedEnd) else Eof
    else if rest[0] != TYPE_PAGE then Fail(Invalid)
    else if |rest| < 17 then Fail(Truncated)
    else
      var index, size := FromBigEndian(rest[1..9]), FromBigEndian(rest[9..17]);
      if index > MAX_INT64 then Fail(Invalid)
      else if size > maxPageBytes then Fail(Oversized)
      else if index in expected[..next] then Fail(Duplicate)
      else if index !in expected then Fail(Unexpected)
      else if next >= |expected| then Fail(OutOfOrder)
      else if index != expected[next] then Fail(OutOfOrder)
      else Page(index, size)
  }

  /** A whole read: what was read of each body, how it ended, what is left. */
  datatype Consumed = Consumed(bodies: seq<seq<byte>>, end: Next, rest: seq<byte>)

  /** A consumer that reads up to `takes[i]` bytes of the i-th body, closes it,
      and asks for the next frame whatever the close reported. */
  function Consume(rest: seq<byte>, expected: seq<nat>, next: nat, maxPageBytes: nat, takes: seq<nat>): (c: Consumed)
    requires next <= |expected|
    ensures !c.end.Page?
    decreases |expected| - next
  {
    match NextFrame(rest, expected, next, maxPageBytes)
    case Fail(problem) => Consumed([], Fail(problem), rest)
    case Eof => Consumed([], Eof, rest[1..])
    case Page(_, size) =>
      var body := Body(rest[17..], size);
      var c := Consume(AfterBody(rest[17..], size), expected, next + 1, maxPageBytes, Tail(takes));
      Consumed([body[..Min(Head(takes), |body|)]] + c.bodies, c.end, c.rest)
  }

  function Head(takes: seq<nat>): nat {
    if takes == [] then 0 else takes[0]
  }

  function Tail(takes: seq<nat>): seq<nat> {
    if takes == [] then [] else takes[1..]
  }

  /** What of a body is there to read, and what is left once it was drained. */
  function Body(rest: seq<byte>, size: nat): seq<byte> {
    rest[..Min(size, |rest|)]
  }

  function AfterBody(rest: seq<byte>, size: nat): seq<byte> {
    rest[Min(size, |rest|)..]
  }

  // --------------------------------------------------------------- round trip

  /** A frame header parses to what was written. */
  lemma MetaParses(f: Frame, after: seq<byte>)
    requires f.index <= MAX_INT64 && |f.data| <= MAX_INT64
    ensures
      var s := EncodePage(f) + after;
      && |s| >= 17 && s[0] == TYPE_PAGE
      && FromBigEndian(s[1..9]) == f.index && FromBigEndian(s[9..17]) == |f.data|
      && s[17..] == f.data + after
  {
    Pow256Of8();
    BigEndianRoundTrip(f.index, 8);
    BigEndianRoundTrip(|f.data|, 8);
    FourParts(TYPE_PAGE, BigEndian(f.index, 8), BigEndian(|f.data|, 8), f.data, after);
  }

  lemma FourParts(t: byte, a: seq<byte>, b: seq<byte>, data: seq<byte>, after: seq<byte>)
    requires |a| == 8 && |b| == 8
    ensures
      var s := [t] + a + b + data + after;
      s[0] == t && s[1..9] == a && s[9..17] == b && s[17..] == data + after
  {
  }

  /** In increasing order no page is a duplicate of an earlier one. */
  lemma NotSeen(expected: seq<nat>, next: nat)
    requires Increasing(expected)
    requires next < |expected|
    ensures expected[next] !in expected[..next]
    ensures expected[next] in expected
  {
  }

  lemma FrameAccepted(f: Frame, after: seq<byte>, expected: seq<nat>, next: nat, maxPageBytes: nat)
    requires Increasing(expected)
    requires next < |expected| && expected[next] == f.index
    requires f.index <= MAX_INT64 && |f.data| <= maxPageBytes <= MAX_INT64
    ensures NextFrame(EncodePage(f) + after, expected, next, maxPageBytes) == Page(f.index, |f.data|)
    ensures (EncodePage(f) + after)[17..] == f.data + after
  {
    MetaParses(f, after);
    NotSeen(expected, next);
  }

  /** How much a consumer reads of each body of `pages`. */
  function Prefixes(pages: seq<Frame>, takes: seq<nat>): seq<seq<byte>> {
    if pages == [] then []
    else [pages[0].data[..Min(Head(takes), |pages[0].data|)]] + Prefixes(pages[1..], Tail(takes))
  }

  /** Reading what was written gives those pages, then a clean end, and leaves
      what follows untouched, however much of each body was read. */
  lemma {:induction false} RoundTrip(pages: seq<Frame>, expected: seq<nat>, next: nat, maxPageBytes: nat,
        takes: seq<nat>, after: seq<byte>)
    requires Increasing(expected)
    requires next + |pages| == |expected|
    requires expected[next..] == Indexes(pages)
    requires maxPageBytes <= MAX_INT64
    requires forall i :: 0 <= i < |pages| ==> pages[i].index <= MAX_INT64 && |pages[i].data| <= maxPageBytes
    ensures Consume(EncodeBody(pages) + after, expected, next, maxPageBytes, takes)
         == Consumed(Prefixes(pages, takes), Eof, after)
    decreases |pages|
  {
    if pages == [] {
      assert (EncodeBody(pages) + after)[1..] == after;
    } else {
      var f, rest := pages[0], EncodeBody(pages[1..]) + after;
      assert EncodeBody(pages) + after == EncodePage(f) + rest;
      assert expected[next] == f.index;
      FrameAccepted(f, rest, expected, next, maxPageBytes);
      assert expected[next + 1..] == Indexes(pages[1..]);
      RoundTrip(pages[1..], expected, next + 1, maxPageBytes, Tail(takes), after);
      assert Body(f.data + rest, |f.data|) == f.data;
      assert AfterBody(f.data + rest, |f.data|) == rest;
    }
  }

  /** The frames that a stream holds, as far as it is well formed. */
  function FramesOf(rest: seq<byte>, expected: seq<nat>, next: nat, maxPageBytes: nat): seq<Frame>
    requires next <= |expected|
    decreases |expected| - next
  {
    match NextFrame(rest, expected, next, maxPageBytes)
    case Page(index, size) =>
      [Frame(index, Body(rest[17..], size))] + FramesOf(AfterBody(rest[17..], size), expected, next + 1, maxPageBytes)
    case _ => []
  }

  // --------------------------------------------------- only the encoding reads

  /** Any byte string that reads to a clean end starts with the encoding of
      pages with exactly the expected indexes, within the size limit. */
  lemma {:induction false} OnlyEncodingsRead(rest: seq<byte>, expected: seq<nat>, next: nat, maxPageBytes: nat,
        takes: seq<nat>)
    returns (pages: seq<Frame>)
    requires next <= |expected|
    requires Consume(rest, expected, next, maxPageBytes, takes).end == Eof
    ensures Indexes(pages) == expected[next..]
    ensures forall i :: 0 <= i < |pages| ==> |pages[i].data| <= maxPageBytes
    ensures rest == EncodeBody(pages) + Consume(rest, expected, next, maxPageBytes, takes).rest
    ensures Consume(rest, expected, next, maxPageBytes, takes).bodies == Prefixes(pages, takes)
    ensures pages == FramesOf(rest, expected, next, maxPageBytes)
    decreases |expected| - next
  {
    match NextFrame(rest, expected, next, maxPageBytes)
    case Eof =>
      pages := [];
      assert rest == [TYPE_END] + rest[1..];
    case Page(index, size) =>
      var after := AfterBody(rest[17..], size);
      var tail := OnlyEncodingsRead(after, expected, next + 1, maxPageBytes, Tail(takes));
      var left := Consume(after, expected, next + 1, maxPageBytes, Tail(takes)).rest;
      var f := Frame(index, Body(rest[17..], size));
      BodyIsWhole(rest[17..], size, tail, left);
      HeaderIsOnly(rest, index, size);
      pages := [f] + tail;
      PrependPage(f, tail, after, left);
      NextExpected(expected, next);
      assert pages[1..] == tail;
  }

  lemma NextExpected(expected: seq<nat>, next: nat)
    requires next < |expected|
    ensures expected[next..] == [expected[next]] + expected[next + 1..]
  {
  }

  lemma PrependPage(f: Frame, tail: seq<Frame>, after: seq<byte>, left: seq<byte>)
    requires after == EncodeBody(tail) + left
    ensures Meta(f.index, |f.data|) + (f.data + after) == EncodeBody([f] + tail) + left
    ensures Indexes([f] + tail) == [f.index] + Indexes(tail)
  {
    assert ([f] + tail)[1..] == tail;
    assert EncodePages([f] + tail) == EncodePage(f) + EncodePages(tail);
  }

  /** More bytes follow a body, so it was not cut short. */
  lemma BodyIsWhole(rest: seq<byte>, size: nat, tail: seq<Frame>, left: seq<byte>)
    requires AfterBody(rest, size) == EncodeBody(tail) + left
    ensures |Body(rest, size)| == size
    ensures rest == Body(rest, size) + AfterBody(rest, size)
  {
    assert |AfterBody(rest, size)| >= 1;
  }

  lemma HeaderIsOnly(rest: seq<byte>, index: nat, size: nat)
    requires |rest| >= 17 && rest[0] == TYPE_PAGE
    requires index == FromBigEndian(rest[1..9]) && size == FromBigEndian(rest[9..17])
    ensures rest == Meta(index, size) + rest[17..]
  {
    BigEndianIsOnly(rest[1..9]);
    BigEndianIsOnly(rest[9..17]);
    assert rest == [TYPE_PAGE] + rest[1..9] + rest[9..17] + rest[17..];
  }

  // -------------------------------------------------------------- prefix safety

  /** The next frame depends only on its header. */
  lemma FrameIgnoresRest(p: seq<byte>, q: seq<byte>, expected: seq<nat>, next: nat, maxPageBytes: nat)
    requires next <= |expected|
    requires !NextFrame(p, expected, next, maxPageBytes).Fail?
    ensures NextFrame(p + q, expected, next, maxPageBytes) == NextFrame(p, expected, next, maxPageBytes)
  {
    if |p| >= 17 {
      assert (p + q)[1..9] == p[1..9] && (p + q)[9..17] == p[9..17];
    }
  }

  lemma BodyIgnoresRest(p: seq<byte>, q: seq<byte>, size: nat)
    requires 17 + size <= |p|
    ensures AfterBody((p + q)[17..], size) == AfterBody(p[17..], size) + q
  {
    assert (p + q)[17..] == p[17..] + q;
  }

  ghost predicate EndsBefore(c: Consumed, q: seq<byte>) {
    c.end == Eof && |c.rest| >= |q|
  }

  /** Bytes beyond a clean end do not matter. */
  lemma {:induction false} CleanEndIgnoresRest(p: seq<byte>, q: seq<byte>, expected: seq<nat>, next: nat,
        maxPageBytes: nat, takes: seq<nat>)
    requires next <= |expected|
    requires Consume(p, expected, next, maxPageBytes, takes).end == Eof
    ensures EndsBefore(Consume(p + q, expected, next, maxPageBytes, takes), q)
    decreases |expected| - next
  {
    FrameIgnoresRest(p, q, expected, next, maxPageBytes);
    match NextFrame(p, expected, next, maxPageBytes)
    case Eof =>
    case Page(index, size) =>
      var after := AfterBody(p[17..], size);
      var tail := OnlyEncodingsRead(after, expected, next + 1, maxPageBytes, Tail(takes));
      BodyIsWhole(p[17..], size, tail, Consume(after, expected, next + 1, maxPageBytes, Tail(takes)).rest);
      BodyIgnoresRest(p, q, size);
      CleanEndIgnoresRest(after, q, expected, next + 1, maxPageBytes, Tail(takes));
  }

  /** A stream that was cut anywhere does not reach a clean end, however its
      bodies are read. */
  lemma NoStrictPrefixEndsCleanly(pages: seq<Frame>, p: seq<byte>, maxPageBytes: nat, takes: seq<nat>)
    requires Sendable(pages, maxPageBytes) && maxPageBytes <= MAX_INT64
    requires p < EncodeBody(pages)
    ensures Consume(p, Indexes(pages), 0, maxPageBytes, takes).end != Eof
  {
    var expected := Indexes(pages);
    if Consume(p, expected, 0, maxPageBytes, takes).end == Eof {
      var q := EncodeBody(pages)[|p|..];
      assert p + q == EncodeBody(pages) + [];
      CleanEndIgnoresRest(p, q, expected, 0, maxPageBytes, takes);
      assert expected[0..] == Indexes(pages);
      RoundTrip(pages, expected, 0, maxPageBytes, takes, []);
      assert false;
    }
  }
}
