/** The page frame writer and reader as the objects that share a byte stream. */
module PageFrameIO {
  import opened Results
  import opened RangePlan
  import opened PageStreams
  import opened PageFrames

  // -------------------------------------------------------------------- writer

  class PageFrameWriter {
    var out: seq<byte>
    var lastIndex: int
    var wrotePage: bool
    var closed: bool
    ghost var pages: seq<Frame>
    ghost var broken: bool

    /** Unless a body ended short, the output is the encoding of the pages. */
    ghost predicate Valid()
      reads this
    {
      && (!broken ==> out == if closed then HEADER + EncodeBody(pages) else HEADER + EncodePages(pages))
      && (wrotePage <==> pages != [])
      && (wrotePage ==> lastIndex == pages[|pages| - 1].index)
      && Increasing(Indexes(pages))
      && forall i :: 0 <= i < |pages| ==> pages[i].index <= MAX_INT64
    }

    constructor ()
      ensures Valid() && pages == [] && !closed && !broken
    {
      out, lastIndex, wrotePage, closed := HEADER, 0, false, false;
      pages, broken := [], false;
    }

    /** Copies `size` bytes of `src`. A source that ends early breaks the stream: it
        then stands inside the body of that page. */
    method WritePageFrom(index: int, size: int, src: seq<byte>) returns (res: Result<nat>)
      requires Valid()
      requires IsInt64(index) && IsInt64(size)
      modifies this
      ensures Valid() && closed == old(closed)
      ensures res.Ok? <==>
                && !old(closed) && 0 <= index && 0 <= size <= |src|
                && (old(pages) == [] || old(pages)[|old(pages)| - 1].index < index)
      ensures pages == if res.Ok? then old(pages) + [Frame(index, src[..size])] else old(pages)
      ensures res.Ok? ==> broken == old(broken)
      ensures res.Err? && !broken ==> out == old(out)
      ensures |src| >= size ==> broken == old(broken)
      ensures broken && !old(broken) ==>
                0 <= index && |src| < size && out == HEADER + EncodePages(old(pages)) + Meta(index, size) + src
    {
      if closed {
        return Err("page frame writer is closed");
      }
      if index < 0 {
        return Err("invalid page frame: negative page index");
      }
      if size < 0 {
        return Err("invalid page frame: negative page size");
      }
      if wrotePage && index <= lastIndex {
        return Err("out-of-order page frame");
      }
      if size > |src| {
        out := out + Meta(index, size) + src;
        broken := true;
        return Err("EOF");
      }
      ghost var f := Frame(index, src[..size]);
      AppendPage(pages, f);
      AppendFrame(out, pages, f);
      out := out + Meta(index, size) + src[..size];
      pages := pages + [f];
      lastIndex, wrotePage := index, true;
      res := Ok(size);
    }

    method WriteEnd() returns (res: Result<nat>)
      requires Valid()
      modifies this`out, this`closed
      ensures Valid() && closed
      ensures res.Ok? <==> !old(closed)
      ensures out == if res.Ok? then old(out) + [TYPE_END] else old(out)
    {
      if closed {
        return Err("page frame writer is closed");
      }
      assert HEADER + EncodePages(pages) + [TYPE_END] == HEADER + EncodeBody(pages);
      out := out + [TYPE_END];
      closed := true;
      res := Ok(1);
    }
  }

  lemma CutPrefix(h: seq<byte>, p: seq<byte>, m: seq<byte>, src: seq<byte>, data: seq<byte>, end: seq<byte>)
    requires src <= data && end != []
    ensures h + p + m + src < h + ((p + (m + data)) + end)
  {
  }

  /** A stream that was broken inside the body of a page is the beginning of every
      stream with that page, whatever the rest of it would have been. */
  lemma ShortPageIsCut(pages: seq<Frame>, f: Frame, src: seq<byte>)
    requires src < f.data
    ensures HEADER + EncodePages(pages) + Meta(f.index, |f.data|) + src < HEADER + EncodeBody(pages + [f])
  {
    EncodeAppend(pages, f);
    CutPrefix(HEADER, EncodePages(pages), Meta(f.index, |f.data|), src, f.data, [TYPE_END]);
  }

  lemma AppendFrame(out: seq<byte>, pages: seq<Frame>, f: Frame)
    ensures out == HEADER + EncodePages(pages) ==>
      out + Meta(f.index, |f.data|) + f.data == HEADER + EncodePages(pages + [f])
  {
    EncodeAppend(pages, f);
    Regroup(HEADER, EncodePages(pages), Meta(f.index, |f.data|), f.data);
  }

  lemma Regroup(h: seq<byte>, p: seq<byte>, m: seq<byte>, data: seq<byte>)
    ensures h + p + m + data == h + (p + (m + data))
  {
  }

  lemma WithoutHeader(h: seq<byte>, out: seq<byte>, body: seq<byte>)
    requires h <= out < h + body
    ensures out[|h|..] < body
  {
    assert (h + body)[|h|..] == body;
  }

  /** A reader notices: however it reads the bodies, it never sees a clean end. */
  lemma ShortPageIsNoticed(out: seq<byte>, pages: seq<Frame>, f: Frame, src: seq<byte>,
        maxPageBytes: nat, takes: seq<nat>)
    requires src < f.data && out == HEADER + EncodePages(pages) + Meta(f.index, |f.data|) + src
    requires Sendable(pages + [f], maxPageBytes) && maxPageBytes <= MAX_INT64
    ensures HEADER <= out && Consume(out[|HEADER|..], Indexes(pages + [f]), 0, maxPageBytes, takes).end != Eof
  {
    ShortPageIsCut(pages, f, src);
    StartsWith(HEADER, EncodePages(pages), Meta(f.index, |f.data|), src);
    WithoutHeader(HEADER, out, EncodeBody(pages + [f]));
    NoStrictPrefixEndsCleanly(pages + [f], out[|HEADER|..], maxPageBytes, takes);
  }

  lemma StartsWith(h: seq<byte>, p: seq<byte>, m: seq<byte>, src: seq<byte>)
    ensures h <= h + p + m + src
  {
  }

  lemma {:induction false} AppendPage(pages: seq<Frame>, f: Frame)
    ensures EncodePages(pages + [f]) == EncodePages(pages) + EncodePage(f)
    ensures Increasing(Indexes(pages)) && (pages == [] || pages[|pages| - 1].index < f.index) ==>
              Increasing(Indexes(pages + [f]))
  {
    EncodeAppend(pages, f);
    var s := Indexes(pages);
    var t := Indexes(pages + [f]);
    if Increasing(s) && (pages == [] || pages[|pages| - 1].index < f.index) {
      forall i, j | 0 <= i < j < |t|
        ensures t[i] < t[j]
      {
        if j == |pages| {
          assert i == |pages| - 1 || s[i] < s[|pages| - 1];
        } else {
          assert s[i] < s[j];
        }
      }
    }
  }

  lemma {:induction false} EncodeAppend(pages: seq<Frame>, f: Frame)
    ensures EncodePages(pages + [f]) == EncodePages(pages) + EncodePage(f)
    decreases |pages|
  {
    if pages == [] {
      assert pages + [f] == [f];
      assert EncodePages([f]) == EncodePage(f) + EncodePages([]);
    } else {
      assert (pages + [f])[1..] == pages[1..] + [f];
      EncodeAppend(pages[1..], f);
    }
  }

  // -------------------------------------------------------------------- reader

  /** The connection: bytes not read yet. */
  class Source {
    var rest: seq<byte>

    constructor (data: seq<byte>)
      ensures rest == data
    {
      rest := data;
    }
  }

  /** The body of one frame. Closing it drains what was not read. */
  class PayloadReader {
    const src: Source
    var remaining: nat
    var closed: bool

    constructor (src: Source, size: nat)
      ensures this.src == src && remaining == size && !closed
    {
      this.src, remaining, closed := src, size, false;
    }

    /** One read into a buffer of `n` bytes; the connection delivers at most
        `available` of them. */
    method Read(n: nat, available: nat) returns (data: seq<byte>, res: Result<bool>)
      requires available > 0
      modifies this`remaining, src
      ensures data <= old(src.rest) && src.rest == old(src.rest)[|data|..]
      ensures |data| <= n && remaining == old(remaining) - |data|
      ensures closed ==> res.Err? && data == []
      ensures !closed && n > 0 && old(remaining) > 0 && old(src.rest) != [] ==> res.Ok? && |data| > 0
      ensures !closed && old(remaining) > 0 && old(src.rest) == [] ==> res == Err("truncated page frame")
      ensures !closed && old(remaining) == 0 ==> res == Err("EOF")
    {
      data := [];
      if closed {
        return [], Err("io: read on closed pipe");
      }
      if remaining == 0 {
        return [], Err("EOF");
      }
      if src.rest == [] {
        return [], Err("truncated page frame");
      }
      var m := Min(Min(n, remaining), Min(available, |src.rest|));
      data := src.rest[..m];
      src.rest := src.rest[m..];
      remaining := remaining - m;
      res := Ok(true);
    }

    /** Whatever was read before, afterwards the connection stands behind the
        body, or at its end when the body was cut short. */
    method Close() returns (ok: bool)
      modifies this, src
      ensures closed
      ensures old(closed) ==> ok && src.rest == old(src.rest)
      ensures !old(closed) ==> src.rest == AfterBody(old(src.rest), old(remaining))
      ensures !old(closed) ==> (ok <==> old(remaining) <= |old(src.rest)|)
    {
      if closed {
        return true;
      }
      while remaining > 0 && src.rest != []
        invariant !closed && remaining <= old(remaining)
        invariant old(remaining) - remaining <= |old(src.rest)|
        invariant src.rest == old(src.rest)[old(remaining) - remaining..]
        decreases remaining
      {
        var _, _ := Read(32768, 32768);
      }
      ok := remaining == 0;
      closed := true;
    }
  }

  class PageFrameReader {
    const src: Source
    const expected: seq<nat>
    const maxPageBytes: nat
    var next: nat
    var seen: set<nat>
    var ended: bool

    ghost predicate Valid()
      reads this
    {
      && next <= |expected|
      && Increasing(expected)
      && maxPageBytes <= MAX_INT64
      && seen == (set i | 0 <= i < next :: expected[i])
    }

    constructor (src: Source, expected: seq<nat>, maxPageBytes: nat)
      requires Increasing(expected) && maxPageBytes <= MAX_INT64
      ensures Valid() && next == 0 && !ended
      ensures this.src == src && this.expected == expected && this.maxPageBytes == maxPageBytes
    {
      this.src, this.expected, this.maxPageBytes := src, expected, maxPageBytes;
      next, seen, ended := 0, {}, false;
    }

    /** The next frame header, exactly as the stream grammar has it. */
    method NextPageStream() returns (n: Next, body: PayloadReader?)
      requires Valid()
      modifies this, src
      ensures Valid()
      ensures old(ended) ==> n == Eof && src.rest == old(src.rest) && ended
      ensures !old(ended) ==> n == NextFrame(old(src.rest), expected, old(next), maxPageBytes)
      ensures !old(ended) ==> (ended <==> n == Eof)
      ensures n.Page? ==>
                && body != null && fresh(body) && body.src == src && body.remaining == n.size && !body.closed
                && next == old(next) + 1 && src.rest == old(src.rest)[17..]
      ensures !old(ended) && n == Eof ==> src.rest == old(src.rest)[1..]
      ensures !n.Page? ==> body == null && next == old(next)
    {
      body := null;
      if ended {
        return Eof, null;
      }
      if |src.rest| < 1 {
        return Fail(Truncated), null;
      }
      var frameType := src.rest[0];
      ghost var start := src.rest;
      src.rest := src.rest[1..];
      if frameType == TYPE_END {
        if next != |expected| {
          return Fail(UnexpectedEnd), null;
        }
        ended := true;
        return Eof, null;
      }
      if frameType != TYPE_PAGE {
        return Fail(Invalid), null;
      }
      if |src.rest| < 16 {
        src.rest := [];
        return Fail(Truncated), null;
      }
      var index, size := FromBigEndian(src.rest[..8]), FromBigEndian(src.rest[8..16]);
      assert src.rest[..8] == start[1..9] && src.rest[8..16] == start[9..17];
      src.rest := src.rest[16..];
      assert src.rest == start[17..];
      if index > MAX_INT64 {
        return Fail(Invalid), null;
      }
      if size > maxPageBytes {
        return Fail(Oversized), null;
      }
      assert index in seen <==> index in expected[..next];
      if index in seen {
        return Fail(Duplicate), null;
      }
      if index !in expected {
        return Fail(Unexpected), null;
      }
      if next >= |expected| || index != expected[next] {
        return Fail(OutOfOrder), null;
      }
      seen, next := seen + {index}, next + 1;
      body := new PayloadReader(src, size);
      n := Page(index, size);
    }
  }

  predicate ValidExpected(expected: seq<int>) {
    forall i :: 0 <= i < |expected| ==> expected[i] >= 0 && (i > 0 ==> expected[i - 1] < expected[i])
  }

  lemma {:induction false} StepwiseIncreasing(expected: seq<int>, i: nat, j: nat)
    requires ValidExpected(expected)
    requires i < j < |expected|
    ensures expected[i] < expected[j]
    decreases j
  {
    if i < j - 1 {
      StepwiseIncreasing(expected, i, j - 1);
    }
  }

  /** Checks the request and the stream header. */
  method NewPageFrameReader(src: Source, expected: seq<int>, maxPageBytes: int) returns (res: Result<PageFrameReader>)
    requires maxPageBytes <= MAX_INT64
    modifies src
    ensures res.Ok? <==> maxPageBytes > 0 && ValidExpected(expected) && HEADER <= old(src.rest)
    ensures res.Ok? ==>
              && fresh(res.value) && res.value.Valid()
              && res.value.src == src && src.rest == old(src.rest)[6..]
              && res.value.next == 0 && !res.value.ended
              && res.value.expected == expected && res.value.maxPageBytes == maxPageBytes
  {
    if maxPageBytes <= 0 {
      return Err("max page bytes must be greater than zero");
    }
    for i := 0 to |expected|
      invariant forall j :: 0 <= j < i ==> expected[j] >= 0 && (j > 0 ==> expected[j - 1] < expected[j])
    {
      if expected[i] < 0 {
        return Err("invalid page frame: negative expected page index");
      }
      if i > 0 && expected[i] <= expected[i - 1] {
        return Err("invalid page frame: expected pages must be strictly increasing");
      }
    }
    if |src.rest| < 6 {
      return Err("truncated page frame");
    }
    HeaderChecks(src.rest);
    if src.rest[..4] != HEADER[..4] {
      return Err("invalid page frame protocol version: bad magic");
    }
    if FromBigEndian(src.rest[4..6]) != 1 {
      return Err("invalid page frame protocol version");
    }
    src.rest := src.rest[6..];
    forall i, j | 0 <= i < j < |expected|
      ensures expected[i] < expected[j]
    {
      StepwiseIncreasing(expected, i, j);
    }
    var indexes: seq<nat> := seq(|expected|, i requires 0 <= i < |expected| => expected[i] as nat);
    assert indexes == expected;
    var reader := new PageFrameReader(src, indexes, maxPageBytes);
    res := Ok(reader);
  }

  /** The two header checks together accept exactly the stream header. */
  lemma HeaderChecks(rest: seq<byte>)
    requires |rest| >= 6
    ensures HEADER <= rest <==> rest[..4] == HEADER[..4] && FromBigEndian(rest[4..6]) == 1
  {
    var s := rest[4..6];
    assert s[..1] == [rest[4]] && s[..1][..0] == [];
    assert FromBigEndian(s[..1]) == rest[4];
    assert rest[..4] == HEADER[..4] <==> forall i :: 0 <= i < 4 ==> rest[i] == HEADER[i];
    assert HEADER <= rest <==> forall i :: 0 <= i < 6 ==> rest[i] == HEADER[i];
  }

  /** A consumer on a connection: reads up to `takes[i]` bytes of each body,
      closes it without looking at the result, and goes on to the next frame.
      What it sees is what the stream grammar says. */
  method ConsumeAll(reader: PageFrameReader, takes: seq<nat>) returns (bodies: seq<seq<byte>>, end: Next)
    requires reader.Valid() && !reader.ended
    modifies reader, reader.src
    ensures
      var c := Consume(old(reader.src.rest), reader.expected, old(reader.next), reader.maxPageBytes, takes);
      bodies == c.bodies && end == c.end
    decreases |reader.expected| - reader.next
  {
    var n, body := reader.NextPageStream();
    if !n.Page? {
      return [], n;
    }
    ghost var rest := reader.src.rest;
    var taken: seq<byte> := [];
    var want := Min(Head(takes), n.size);
    while |taken| < want && reader.src.rest != []
      modifies body, reader.src
      invariant |taken| <= want && |taken| <= |rest|
      invariant !body.closed && body.remaining == n.size - |taken|
      invariant taken == rest[..|taken|] && reader.src.rest == rest[|taken|..]
      decreases want - |taken|
    {
      var data, _ := body.Read(want - |taken|, 32768);
      taken := taken + data;
    }
    var _ := body.Close();
    assert taken == Body(rest, n.size)[..Min(Head(takes), |Body(rest, n.size)|)];
    assert reader.src.rest == AfterBody(rest, n.size);
    var more, e := ConsumeAll(reader, Tail(takes));
    bodies, end := [taken] + more, e;
  }
}
