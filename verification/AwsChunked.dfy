/** The aws-chunked upload encoding: the streaming reader and the batch decoder,
    both against one description of the format, and an encoder for it. */
module AwsChunked {
  import opened Results
  import opened RangePlan
  import opened Integers
  import opened PageStreams

  const LF: byte := 10
  const CR: byte := 13
  const SEMICOLON: byte := 59
  const CRLF: seq<byte> := [CR, LF]

  // ------------------------------------------------------------------- lines

  function IndexOf(s: seq<byte>, b: byte): (i: nat)
    ensures i <= |s| && (i < |s| ==> s[i] == b)
    ensures forall j :: 0 <= j < i ==> s[j] != b
  {
    if s == [] || s[0] == b then 0 else 1 + IndexOf(s[1..], b)
  }

  datatype Line = Line(text: seq<byte>, rest: seq<byte>)

  /** The first line with its line feed, and what follows it. */
  function ReadLine(s: seq<byte>): (r: Option<Line>)
    ensures r.Some? ==> s == r.value.text + r.value.rest && |r.value.text| > 0
  {
    var i := IndexOf(s, LF);
    if i == |s| then None else Some(Line(s[..i + 1], s[i + 1..]))
  }

  function TrimSuffix(s: seq<byte>, b: byte): seq<byte> {
    if s != [] && s[|s| - 1] == b then s[..|s| - 1] else s
  }

  function AsText(s: seq<byte>): string {
    seq(|s|, i requires 0 <= i < |s| => s[i] as char)
  }

  /** The size on a chunk's first line: hexadecimal, up to a semicolon. */
  function ChunkSize(line: seq<byte>): Option<int> {
    var text := TrimSuffix(TrimSuffix(line, LF), CR);
    ParseInt(AsText(text[..IndexOf(text, SEMICOLON)]), 16)
  }

  /** What follows the trailers and the empty line after them. */
  function AfterTrailers(s: seq<byte>): Option<seq<byte>>
    decreases |s|
  {
    match ReadLine(s)
    case None => None
    case Some(l) => if l.text == CRLF || l.text == [LF] then Some(l.rest) else AfterTrailers(l.rest)
  }

  lemma FirstIndex(a: seq<byte>, b: byte, rest: seq<byte>)
    requires b !in a
    ensures IndexOf(a + [b] + rest, b) == |a|
    ensures IndexOf(a, b) == |a|
  {
    var s := a + [b] + rest;
    var i := IndexOf(s, b);
    assert s[|a|] == b;
    var j := IndexOf(a, b);
  }

  lemma LineIsRead(a: seq<byte>, rest: seq<byte>)
    requires LF !in a
    ensures ReadLine(a + [LF] + rest) == Some(Line(a + [LF], rest))
  {
    FirstIndex(a, LF, rest);
    var s := a + [LF] + rest;
    assert s[..|a| + 1] == a + [LF] && s[|a| + 1..] == rest;
  }

  lemma CrlfIsRead(rest: seq<byte>)
    ensures ReadLine(CRLF + rest) == Some(Line(CRLF, rest))
  {
    LineIsRead([CR], rest);
    assert [CR] + [LF] + rest == CRLF + rest;
  }

  // -------------------------------------------------------------- the meaning

  /** How a body ends; `Complete` says what follows it. */
  datatype End = Complete(rest: seq<byte>) | Truncated | BadSize | BadTerminator | Panicked

  datatype Decoded = Decoded(data: seq<byte>, end: End)

  /** The decoders differ on a negative chunk size: copying a negative count
      copies nothing, while slicing a buffer to a negative length panics. */
  datatype Mode = Batch | Streaming

  function Decode(s: seq<byte>, mode: Mode): Decoded
    decreases |s|, 1
  {
    match ReadLine(s)
    case None => Decoded([], Truncated)
    case Some(l) =>
      match ChunkSize(l.text)
      case None => Decoded([], BadSize)
      case Some(n) =>
        if n == 0 then
          match AfterTrailers(l.rest)
          case None => Decoded([], Truncated)
          case Some(r) => Decoded([], Complete(r))
        else if n < 0 && mode.Streaming? then Decoded([], Panicked)
        else Resume(l.rest, if n < 0 then 0 else n, mode)
  }

  /** Decode from inside a chunk that has `n` bytes left. */
  function Resume(s: seq<byte>, n: nat, mode: Mode): Decoded
    decreases |s|, 2
  {
    if |s| < n then Decoded(s, Truncated)
    else Prepend(s[..n], AfterData(s[n..], mode))
  }

  /** Decode from the line that ends a chunk's data. */
  function AfterData(s: seq<byte>, mode: Mode): Decoded
    decreases |s|, 1
  {
    match ReadLine(s)
    case None => Decoded([], Truncated)
    case Some(l) => if l.text != CRLF then Decoded([], BadTerminator) else Decode(l.rest, mode)
  }

  /** The sizes of the chunks whose data is whole, and then how many bytes there
      are of the chunk in whose data the body is cut short, 0 if it ends elsewhere. */
  datatype Layout = Cut(tail: nat) | Chunked(size: nat, rest: Layout)

  function LayoutOf(s: seq<byte>): Layout
    decreases |s|, 1
  {
    match ReadLine(s)
    case None => Cut(0)
    case Some(l) =>
      match ChunkSize(l.text)
      case None => Cut(0)
      case Some(n) => if n <= 0 then Cut(0) else LayoutInside(l.rest, n)
  }

  /** The same from inside a chunk that has `n` bytes left, and from its end. */
  function LayoutInside(s: seq<byte>, n: nat): Layout
    decreases |s|, 2
  {
    if |s| < n then Cut(|s|) else Chunked(n, LayoutAfter(s[n..]))
  }

  function LayoutAfter(s: seq<byte>): Layout
    decreases |s|, 1
  {
    match ReadLine(s)
    case None => Cut(0)
    case Some(l) => if l.text != CRLF then Cut(0) else LayoutOf(l.rest)
  }

  function TailOf(l: Layout): nat {
    match l
    case Cut(tail) => tail
    case Chunked(_, rest) => TailOf(rest)
  }

  /** A read of `n` bytes finds them: it never goes beyond the chunk it is in. */
  predicate CanTake(l: Layout, n: nat) {
    l.Cut? ==> n <= l.tail
  }

  function Take(l: Layout, n: nat): Layout
    requires CanTake(l, n)
  {
    match l
    case Cut(tail) => Cut(tail - n)
    case Chunked(size, rest) => if n < size then Chunked(size - n, rest) else rest
  }

  // ------------------------------------------------------------- buffer sizes

  ghost predicate Positive(size: nat -> nat) {
    forall i :: size(i) > 0
  }

  /** The read that follows those of `n` bytes, if the first of them is read `i`. */
  ghost function ReadAfter(size: nat -> nat, i: nat, n: nat): nat
    requires Positive(size)
    decreases n
  {
    if n == 0 then i else if n <= size(i) then i + 1 else ReadAfter(size, i + 1, n - size(i))
  }

  /** The first read in the chunk that is cut short. */
  ghost function LastChunkRead(size: nat -> nat, i: nat, l: Layout): nat
    requires Positive(size)
    decreases l
  {
    match l
    case Cut(_) => i
    case Chunked(n, rest) => LastChunkRead(size, ReadAfter(size, i, n), rest)
  }

  /** The bytes of the reads from `i` up to `j`. */
  function Bytes(size: nat -> nat, i: nat, j: nat): nat
    requires i <= j
    decreases j - i
  {
    if i == j then 0 else size(i) + Bytes(size, i + 1, j)
  }

  /** Some number of reads from `i` on have exactly `t` bytes. */
  ghost predicate Hits(size: nat -> nat, i: nat, t: nat) {
    exists j :: i <= j && Bytes(size, i, j) == t
  }

  /** The data of the chunk that is cut short ends together with a read. */
  ghost predicate EndsWithRead(l: Layout, size: nat -> nat, i: nat)
    requires Positive(size)
  {
    Hits(size, LastChunkRead(size, i, l), TailOf(l))
  }

  lemma HitsStep(size: nat -> nat, i: nat, t: nat)
    requires Positive(size)
    ensures t > 0 ==> (Hits(size, i, t) <==> size(i) <= t && Hits(size, i + 1, t - size(i)))
    ensures t == 0 ==> Hits(size, i, t)
  {
    if t == 0 {
      assert Bytes(size, i, i) == 0;
    } else {
      if j :| i <= j && Bytes(size, i, j) == t {
        assert i + 1 <= j && Bytes(size, i + 1, j) == t - size(i);
      }
      if size(i) <= t && Hits(size, i + 1, t - size(i)) {
        var j :| i + 1 <= j && Bytes(size, i + 1, j) == t - size(i);
        assert Bytes(size, i, j) == t;
      }
    }
  }

  /** Reading on does not change how a body ends. */
  lemma TakeKeepsEnd(l: Layout, size: nat -> nat, i: nat)
    requires Positive(size) && CanTake(l, size(i))
    requires l.Chunked? ==> l.size > 0
    ensures EndsWithRead(Take(l, size(i)), size, i + 1) <==> EndsWithRead(l, size, i)
  {
    if l.Cut? {
      HitsStep(size, i, l.tail);
    }
  }

  /** A read that finds too little ends the body. */
  lemma StuckEnds(l: Layout, size: nat -> nat, i: nat)
    requires Positive(size) && l.Cut? && l.tail < size(i)
    ensures EndsWithRead(l, size, i) <==> l.tail == 0
  {
    HitsStep(size, i, l.tail);
  }

  ghost predicate Constant(size: nat -> nat, n: nat) {
    forall i :: size(i) == n
  }

  /** With buffers of one size the reads of the other chunks do not matter. */
  lemma ConstantBuffers(l: Layout, size: nat -> nat, i: nat, n: nat)
    requires Positive(size) && Constant(size, n) && n > 0
    ensures EndsWithRead(l, size, i) <==> TailOf(l) % n == 0
  {
    HitsMultiples(size, LastChunkRead(size, i, l), TailOf(l), n);
  }

  lemma {:induction false} HitsMultiples(size: nat -> nat, i: nat, t: nat, n: nat)
    requires Positive(size) && Constant(size, n) && n > 0
    ensures Hits(size, i, t) <==> t % n == 0
    decreases t
  {
    assert size(i) == n;
    HitsStep(size, i, t);
    if t >= n {
      HitsMultiples(size, i + 1, t - n, n);
      ModuloStep(t - n, n);
    }
  }

  lemma ModuloStep(b: nat, n: nat)
    requires n > 0
    ensures (b + n) % n == b % n
  {
    var k := (b + n) / n - b / n - 1;
    assert b == (b / n) * n + b % n && b + n == ((b + n) / n) * n + (b + n) % n;
    assert k * n == ((b + n) / n) * n - (b / n) * n - n;
    SmallMultiple(k, n);
  }

  lemma SmallMultiple(k: int, n: int)
    requires 0 < n && 0 - n < k * n < n
    ensures k == 0
  {
  }

  function Prepend(data: seq<byte>, d: Decoded): Decoded {
    Decoded(data + d.data, d.end)
  }

  lemma PrependTwice(a: seq<byte>, b: seq<byte>, d: Decoded)
    ensures Prepend(a, Prepend(b, d)) == Prepend(a + b, d)
  {
    assert a + (b + d.data) == (a + b) + d.data;
  }

  // ------------------------------------------------------------- the decoders

  datatype Error = Eof | UnexpectedEof | InvalidSize | InvalidTerminator | Panic

  /** What is to come after a terminator was read. */
  function AfterTerminator(err: Option<Error>, rest: seq<byte>, mode: Mode): Decoded {
    if err == None then Decode(rest, mode)
    else Decoded([], if err.value == Eof then Truncated else BadTerminator)
  }

  class BufferedReader {
    var rest: seq<byte>

    constructor (data: seq<byte>)
      ensures rest == data
    {
      rest := data;
    }

    /** The next line, or an EOF that uses up what is left. */
    method ReadString() returns (line: Option<seq<byte>>)
      modifies this
      ensures
        match ReadLine(old(rest))
        case None => line == None && rest == []
        case Some(l) => line == Some(l.text) && rest == l.rest
    {
      match ReadLine(rest)
      case None =>
        line, rest := None, [];
      case Some(l) =>
        line, rest := Some(l.text), l.rest;
    }

    method Take(n: nat) returns (data: seq<byte>)
      modifies this
      ensures data == old(rest)[..Min(n, |old(rest)|)] && rest == old(rest)[Min(n, |old(rest)|)..]
    {
      var k := Min(n, |rest|);
      data, rest := rest[..k], rest[k..];
    }

    method DiscardTrailers() returns (ok: bool)
      modifies this
      ensures
        match AfterTrailers(old(rest))
        case None => !ok
        case Some(r) => ok && rest == r
    {
      while true
        invariant AfterTrailers(rest) == AfterTrailers(old(rest))
        decreases |rest|
      {
        var line := this.ReadString();
        if line == None {
          return false;
        }
        if line.value == CRLF || line.value == [LF] {
          return true;
        }
      }
    }

    method ReadCRLF() returns (err: Option<Error>)
      modifies this
      ensures |rest| <= |old(rest)| && (err.Some? ==> err.value == Eof || err.value == InvalidTerminator)
      ensures forall mode :: AfterData(old(rest), mode) == AfterTerminator(err, rest, mode)
      ensures LayoutAfter(old(rest)) == if err == None then LayoutOf(rest) else Cut(0)
    {
      var line := this.ReadString();
      err := if line == None then Some(Eof) else if line.value != CRLF then Some(InvalidTerminator) else None;
    }
  }

  /** The batch decoder's error: none exactly for a complete body. */
  function BatchError(end: End): Option<Error> {
    match end
    case Complete(_) => None
    case Truncated => Some(Eof)
    case BadSize => Some(InvalidSize)
    case BadTerminator => Some(InvalidTerminator)
    case Panicked => Some(Panic)
  }

  /** The data of one chunk and its terminator. */
  method CopyChunk(reader: BufferedReader, n: nat) returns (data: seq<byte>, err: Option<Error>)
    modifies reader
    ensures |reader.rest| <= |old(reader.rest)|
    ensures
      var d := Resume(old(reader.rest), n, Batch);
      if err == None then d == Prepend(data, Decode(reader.rest, Batch))
      else data == d.data && err == BatchError(d.end)
  {
    data := reader.Take(n);
    if |data| < n {
      return data, Some(Eof);
    }
    err := reader.ReadCRLF();
  }

  /** One round of the batch decoder; `over` says that it was the last. */
  method DecodeOne(reader: BufferedReader) returns (data: seq<byte>, over: bool, err: Option<Error>)
    modifies reader
    ensures
      var d := Decode(old(reader.rest), Batch);
      if over then data == d.data && err == BatchError(d.end)
      else d == Prepend(data, Decode(reader.rest, Batch)) && |reader.rest| < |old(reader.rest)|
  {
    data, over := [], true;
    var line := reader.ReadString();
    if line == None {
      return [], true, Some(Eof);
    }
    var size := ChunkSize(line.value);
    if size == None {
      return [], true, Some(InvalidSize);
    }
    if size.value == 0 {
      var ok := reader.DiscardTrailers();
      return [], true, if ok then None else Some(Eof);
    }
    data, err := CopyChunk(reader, if size.value < 0 then 0 else size.value);
    over := err != None;
  }

  method DecodeAwsChunkedBody(src: seq<byte>) returns (written: seq<byte>, err: Option<Error>)
    ensures written == Decode(src, Batch).data
    ensures err == BatchError(Decode(src, Batch).end)
  {
    var reader := new BufferedReader(src);
    written := [];
    while true
      invariant Decode(src, Batch) == Prepend(written, Decode(reader.rest, Batch))
      decreases |reader.rest|
    {
      var data, over, e := DecodeOne(reader);
      PrependTwice(written, data, Decode(reader.rest, Batch));
      written := written + data;
      if over {
        return written, e;
      }
    }
  }

  /** The error that tells the reader's client how the body ended. A truncated
      body may read like a complete one. */
  predicate Reports(end: End, e: Error) {
    match end
    case Complete(_) => e == Eof
    case Truncated => e == Eof || e == UnexpectedEof
    case BadSize => e == InvalidSize
    case BadTerminator => e == InvalidTerminator
    case Panicked => e == Panic
  }

  /** What is to come when `left` bytes of a chunk are still to be read. */
  function Onward(rest: seq<byte>, left: nat): Decoded {
    if left > 0 then Resume(rest, left, Streaming) else AfterData(rest, Streaming)
  }

  function OnwardLayout(rest: seq<byte>, left: nat): Layout {
    if left > 0 then LayoutInside(rest, left) else LayoutAfter(rest)
  }

  class DecodeReader {
    const reader: BufferedReader
    var remaining: int
    var done: bool
    var pendingErr: Option<Error>

    ghost predicate Valid()
      reads this
    {
      && remaining >= 0
      && (pendingErr.Some? ==> pendingErr.value == Eof || pendingErr.value == InvalidTerminator)
    }

    /** What is still to come. */
    ghost function Future(): Decoded
      requires Valid()
      reads this, reader
    {
      if pendingErr.Some? then Decoded([], if pendingErr.value == Eof then Truncated else BadTerminator)
      else if done then Decoded([], Complete(reader.rest))
      else if remaining > 0 then Resume(reader.rest, remaining, Streaming)
      else Decode(reader.rest, Streaming)
    }

    /** The data that is still to come. */
    ghost function Ahead(): Layout
      requires Valid()
      reads this, reader
    {
      if pendingErr.Some? || done then Cut(0)
      else if remaining > 0 then LayoutInside(reader.rest, remaining)
      else LayoutOf(reader.rest)
    }

    constructor (src: seq<byte>)
      ensures Valid() && fresh(reader) && reader.rest == src
      ensures Future() == Decode(src, Streaming) && Ahead() == LayoutOf(src)
    {
      reader := new BufferedReader(src);
      remaining, done, pendingErr := 0, false, None;
    }

    method NextChunk() returns (err: Option<Error>)
      requires Valid() && remaining == 0 && !done && pendingErr == None
      modifies this`remaining, this`done, reader
      ensures
        var d := Decode(old(reader.rest), Streaming);
        match err
        case Some(e) =>
          && d.data == [] && Reports(d.end, e) && e != UnexpectedEof && e != Panic && remaining == 0
          && LayoutOf(old(reader.rest)) == Cut(0)
        case None =>
          if done then
            && d == Decoded([], Complete(reader.rest)) && remaining == 0
            && LayoutOf(old(reader.rest)) == Cut(0)
          else if remaining < 0 then d == Decoded([], Panicked)
          else
            && remaining > 0 && d == Resume(reader.rest, remaining, Streaming) && |reader.rest| < |old(reader.rest)|
            && LayoutOf(old(reader.rest)) == LayoutInside(reader.rest, remaining)
    {
      var line := reader.ReadString();
      if line == None {
        return Some(Eof);
      }
      var size := ChunkSize(line.value);
      if size == None {
        return Some(InvalidSize);
      }
      if size.value == 0 {
        var ok := reader.DiscardTrailers();
        if !ok {
          return Some(Eof);
        }
        done := true;
        return None;
      }
      remaining := size.value;
      return None;
    }

    /** One read into a buffer of `n` bytes. As long as it reports no error it
        takes bytes off the front of what is to come, from one chunk at a time. */
    method Read(n: nat) returns (data: seq<byte>, err: Option<Error>)
      requires Valid()
      modifies this, reader
      ensures err != Some(Panic) ==> Valid()
      ensures n == 0 ==> data == [] && err == None && unchanged(this, reader)
      ensures err == None ==> old(Future()) == Prepend(data, Future())
      ensures err == None && n > 0 ==> |data| > 0 && |reader.rest| < |old(reader.rest)|
      ensures err.Some? ==> data == old(Future()).data && Reports(old(Future()).end, err.value)
      ensures |data| <= n && (err == Some(UnexpectedEof) <==> err.Some? && 0 < |data| < n)
      ensures err == None && n > 0 ==> CanTake(old(Ahead()), n) && Ahead() == Take(old(Ahead()), n)
      ensures err.Some? && err.value != Panic ==> old(Ahead()) == Cut(|data|) && |data| < n
    {
      data := [];
      if n == 0 {
        return [], None;
      }
      if pendingErr.Some? {
        err := pendingErr;
        pendingErr := None;
        return [], err;
      }
      if done {
        return [], Some(Eof);
      }
      if remaining == 0 {
        err := this.NextChunk();
        if err.Some? {
          return [], err;
        }
        if done {
          return [], Some(Eof);
        }
        if remaining < 0 {
          return [], Some(Panic);
        }
      }
      data, err := this.ReadData(n);
    }

    /** Read from inside a chunk. */
    method ReadData(n: nat) returns (data: seq<byte>, err: Option<Error>)
      requires Valid() && remaining > 0 && !done && pendingErr == None && n > 0
      modifies this`remaining, this`pendingErr, reader
      ensures Valid()
      ensures
        var future := Resume(old(reader.rest), old(remaining), Streaming);
        && (err == None ==> future == Prepend(data, Future()) && |data| > 0 && |reader.rest| < |old(reader.rest)|)
        && (err.Some? ==> data == future.data && Reports(future.end, err.value))
      ensures |data| <= n && (err == Some(UnexpectedEof) <==> err.Some? && 0 < |data| < n)
      ensures
        var ahead := LayoutInside(old(reader.rest), old(remaining));
        if err == None then CanTake(ahead, n) && Ahead() == Take(ahead, n)
        else err.value != Panic && ahead == Cut(|data|) && |data| < n
    {
      var whole;
      data, whole := this.TakeData(n);
      if !whole {
        return data, Some(if data == [] then Eof else UnexpectedEof);
      }
      this.EndChunk();
      return data, None;
    }

    /** The bytes of a read, all of them or what there is. */
    method TakeData(n: nat) returns (data: seq<byte>, whole: bool)
      requires Valid() && remaining > 0 && n > 0
      modifies this`remaining, reader
      ensures Valid()
      ensures
        var future := Resume(old(reader.rest), old(remaining), Streaming);
        var ahead := LayoutInside(old(reader.rest), old(remaining));
        if whole then
          && future == Prepend(data, Onward(reader.rest, remaining))
          && CanTake(ahead, n) && Take(ahead, n) == OnwardLayout(reader.rest, remaining)
          && 0 < |data| <= n && |reader.rest| < |old(reader.rest)|
        else
          future == Decoded(data, Truncated) && ahead == Cut(|data|) && |data| < n
    {
      ghost var s, r := reader.rest, remaining;
      var want := Min(n, remaining);
      data := reader.Take(want);
      remaining := remaining - |data|;
      whole := |data| == want;
      if whole {
        ReadSplits(s, n, r, want, data, reader.rest);
      } else {
        ShortRead(s, r, want, data);
      }
    }

    /** After the last byte of a chunk, read its terminator; an error waits for
        the next read. */
    method EndChunk()
      requires Valid() && !done && pendingErr == None
      modifies this`pendingErr, reader
      ensures Valid() && |reader.rest| <= |old(reader.rest)|
      ensures Future() == Onward(old(reader.rest), remaining)
      ensures Ahead() == OnwardLayout(old(reader.rest), remaining)
    {
      if remaining == 0 {
        pendingErr := reader.ReadCRLF();
      }
    }
  }

  /** Reading part of a chunk leaves the rest of it. */
  lemma ResumeSplits(s: seq<byte>, k: nat, n: nat, mode: Mode)
    requires k <= n && k <= |s|
    ensures k < n ==> Resume(s, n, mode) == Prepend(s[..k], Resume(s[k..], n - k, mode))
    ensures k == n ==> Resume(s, n, mode) == Prepend(s[..k], AfterData(s[k..], mode))
  {
    if |s| < n {
      assert s == s[..k] + s[k..];
    } else {
      assert s[k..][..n - k] == s[k..n] && s[k..][n - k..] == s[n..];
      assert s[..n] == s[..k] + s[k..n];
      PrependTwice(s[..k], s[k..n], AfterData(s[n..], mode));
    }
  }

  /** What a read from inside a chunk leaves of it. */
  lemma LayoutSplits(s: seq<byte>, n: nat, r: nat)
    requires n > 0 && r > 0 && Min(n, r) <= |s|
    ensures CanTake(LayoutInside(s, r), n)
    ensures Take(LayoutInside(s, r), n) == if n < r then LayoutInside(s[n..], r - n) else LayoutAfter(s[r..])
  {
    if n < r <= |s| {
      assert s[n..][r - n..] == s[r..];
    }
  }

  lemma ShortRead(s: seq<byte>, r: nat, want: nat, data: seq<byte>)
    requires |s| < want <= r && data == s[..|s|]
    ensures data == s && Resume(s, r, Streaming) == Decoded(data, Truncated)
    ensures LayoutInside(s, r) == Cut(|data|)
  {
  }

  /** Both views of a read from inside a chunk. */
  lemma ReadSplits(s: seq<byte>, n: nat, r: nat, want: nat, data: seq<byte>, rest: seq<byte>)
    requires n > 0 && r > 0 && want == Min(n, r) <= |s| && data == s[..want] && rest == s[want..]
    ensures Resume(s, r, Streaming) == Prepend(data, Onward(rest, r - want))
    ensures CanTake(LayoutInside(s, r), n) && Take(LayoutInside(s, r), n) == OnwardLayout(rest, r - want)
  {
    ResumeSplits(s, want, r, Streaming);
    LayoutSplits(s, n, r);
  }

  predicate Full(l: Layout) {
    l.Chunked? ==> l.size > 0 && Full(l.rest)
  }

  /** No chunk is empty. */
  lemma {:induction false} ChunksAreFull(s: seq<byte>)
    ensures Full(LayoutOf(s))
    decreases |s|, 2
  {
    var l := ReadLine(s);
    if l.Some? && ChunkSize(l.value.text).Some? {
      var n := ChunkSize(l.value.text).value;
      if 0 < n <= |l.value.rest| {
        LaterChunksAreFull(l.value.rest[n..]);
      }
    }
  }

  lemma {:induction false} LaterChunksAreFull(s: seq<byte>)
    ensures Full(LayoutAfter(s))
    decreases |s|, 1
  {
    var l := ReadLine(s);
    if l.Some? {
      ChunksAreFull(l.value.rest);
    }
  }

  /** Read to the first error with buffers of any sizes: the bytes do not depend
      on them. How a truncated body ends does: it looks complete exactly when the
      data present of its last chunk ends together with a read. */
  method ReadAll(src: seq<byte>, size: nat -> nat) returns (data: seq<byte>, err: Error)
    requires Positive(size)
    ensures data == Decode(src, Streaming).data
    ensures Reports(Decode(src, Streaming).end, err)
    ensures Decode(src, Streaming).end == Truncated ==> (err == Eof <==> EndsWithRead(LayoutOf(src), size, 0))
  {
    var reader := new DecodeReader(src);
    data := [];
    var i := 0;
    ChunksAreFull(src);
    while true
      invariant fresh(reader) && fresh(reader.reader) && reader.Valid()
      invariant Decode(src, Streaming) == Prepend(data, reader.Future())
      invariant Full(reader.Ahead())
      invariant EndsWithRead(reader.Ahead(), size, i) <==> EndsWithRead(LayoutOf(src), size, 0)
      decreases |reader.reader.rest|
    {
      ghost var ahead := reader.Ahead();
      var chunk, e := reader.Read(size(i));
      if e.Some? {
        if e.value != Panic {
          StuckEnds(ahead, size, i);
        }
        return data + chunk, e.value;
      }
      TakeKeepsEnd(ahead, size, i);
      PrependTwice(data, chunk, reader.Future());
      data, i := data + chunk, i + 1;
    }
  }

  // ---------------------------------------------------------- the two decoders

  /** A negative chunk size is met before the body ends. */
  predicate MeetsNegativeSize(s: seq<byte>)
    decreases |s|, 1
  {
    match ReadLine(s)
    case None => false
    case Some(l) =>
      match ChunkSize(l.text)
      case None => false
      case Some(n) => n < 0 || (0 < n <= |l.rest| && NegativeSizeFollows(l.rest[n..]))
  }

  predicate NegativeSizeFollows(s: seq<byte>)
    decreases |s|, 0
  {
    match ReadLine(s)
    case None => false
    case Some(l) => l.text == CRLF && MeetsNegativeSize(l.rest)
  }

  ghost predicate AgreeUnless(batch: Decoded, streaming: Decoded, negative: bool) {
    && batch.end != Panicked
    && if negative then streaming.end == Panicked else streaming == batch
  }

  /** The two decoders yield the same bytes and the same end exactly when no
      negative size is met; otherwise the streaming reader panics and the batch
      decoder does not. */
  lemma {:induction false} DecodersAgreeExactly(s: seq<byte>)
    ensures AgreeUnless(Decode(s, Batch), Decode(s, Streaming), MeetsNegativeSize(s))
    ensures Decode(s, Batch) == Decode(s, Streaming) <==> !MeetsNegativeSize(s)
    decreases |s|, 2
  {
    var l := ReadLine(s);
    if l.Some? && ChunkSize(l.value.text).Some? {
      var n := ChunkSize(l.value.text).value;
      var m := if n < 0 then 0 else n;
      if n != 0 && m <= |l.value.rest| {
        TerminatorsAgree(l.value.rest[m..]);
      }
    }
  }

  lemma {:induction false} TerminatorsAgree(s: seq<byte>)
    ensures AgreeUnless(AfterData(s, Batch), AfterData(s, Streaming), NegativeSizeFollows(s))
    decreases |s|, 1
  {
    var l := ReadLine(s);
    if l.Some? {
      DecodersAgreeExactly(l.value.rest);
    }
  }

  /** What a caller gets from a decoder: a body, an error, or a crash. */
  datatype Verdict = Accepted | Rejected | Crashed

  function BatchVerdict(err: Option<Error>): Verdict {
    if err == None then Accepted else if err.value == Panic then Crashed else Rejected
  }

  /** A copy from the reader stops at the first error, and takes EOF for the end. */
  function StreamVerdict(err: Error): Verdict {
    if err == Eof then Accepted else if err == Panic then Crashed else Rejected
  }

  /** Decoding a body in both ways, the second through buffers of any sizes, gives
      the same bytes and the same verdict exactly when no negative size is met and
      the body is not cut short where a read ends. */
  method DecodeBothWays(src: seq<byte>, size: nat -> nat) returns (same: bool)
    requires Positive(size)
    ensures same <==>
      && !MeetsNegativeSize(src)
      && !(Decode(src, Streaming).end == Truncated && EndsWithRead(LayoutOf(src), size, 0))
  {
    var written, batchErr := DecodeAwsChunkedBody(src);
    var read, streamErr := ReadAll(src, size);
    same := written == read && BatchVerdict(batchErr) == StreamVerdict(streamErr);
    DecodersAgreeExactly(src);
    VerdictsAgreeExactly(Decode(src, Batch), Decode(src, Streaming), MeetsNegativeSize(src), batchErr, streamErr,
      EndsWithRead(LayoutOf(src), size, 0));
  }

  lemma VerdictsAgreeExactly(batch: Decoded, streaming: Decoded, negative: bool, batchErr: Option<Error>,
        streamErr: Error, clean: bool)
    requires AgreeUnless(batch, streaming, negative)
    requires batchErr == BatchError(batch.end) && Reports(streaming.end, streamErr)
    requires streaming.end == Truncated ==> (streamErr == Eof <==> clean)
    ensures batch.data == streaming.data && BatchVerdict(batchErr) == StreamVerdict(streamErr) <==>
      !negative && !(streaming.end == Truncated && clean)
  {
  }

  /** A body that begins with the size -1. */
  lemma NegativeSizePanics(rest: seq<byte>)
    ensures
      var s := ['-' as int, '1' as int] + [CR] + [LF] + rest;
      MeetsNegativeSize(s) && Decode(s, Streaming) == Decoded([], Panicked) && Decode(s, Batch).end != Panicked
  {
    var size: seq<byte> := ['-' as int, '1' as int];
    var s := size + [CR] + [LF] + rest;
    LineIsRead(size + [CR], rest);
    var line := size + [CR] + [LF];
    assert TrimSuffix(line, LF) == size + [CR] && TrimSuffix(size + [CR], CR) == size;
    FirstIndex(size, SEMICOLON, []);
    assert size[..IndexOf(size, SEMICOLON)] == size;
    MinusOneParses(AsText(size));
    DecodersAgreeExactly(s);
  }

  lemma MinusOneParses(text: string)
    requires text == "-1"
    ensures ParseInt(text, 16) == Some(-1)
  {
    assert text[1..] == "1";
    assert "1"[..0] == [] && Value("1", 16) == 1;
  }

  // --------------------------------------------------------------- truncation

  lemma RestOfPrefix(s: seq<byte>, text: seq<byte>, rest: seq<byte>, k: nat)
    requires s == text + rest && |text| <= k <= |s|
    ensures s[..k][..|text|] == text && s[..k][|text|..] == rest[..k - |text|]
  {
  }

  lemma IndexOfPrefix(s: seq<byte>, b: byte, k: nat)
    requires k <= |s| && IndexOf(s, b) < |s|
    ensures IndexOf(s[..k], b) == Min(k, IndexOf(s, b))
  {
    var i, j := IndexOf(s, b), IndexOf(s[..k], b);
    assert forall x :: 0 <= x < k ==> s[..k][x] == s[x];
    if i < k {
      assert s[..k][i] == b;
    }
  }

  /** A prefix of a text still has its first line, or no line at all. */
  lemma LineOfPrefix(s: seq<byte>, k: nat)
    requires k <= |s| && ReadLine(s).Some?
    ensures
      var l := ReadLine(s).value;
      ReadLine(s[..k]) == if k < |l.text| then None else Some(Line(l.text, l.rest[..k - |l.text|]))
  {
    var l := ReadLine(s).value;
    IndexOfPrefix(s, LF, k);
    if |l.text| <= k {
      RestOfPrefix(s, l.text, l.rest, k);
    }
  }

  lemma TrailerOfPrefix(s: seq<byte>, k: nat)
    requires k <= |s| && ReadLine(s).Some?
    requires var l := ReadLine(s).value; l.text != CRLF && l.text != [LF] && |l.text| <= k
    ensures var l := ReadLine(s).value; AfterTrailers(s[..k]) == AfterTrailers(l.rest[..k - |l.text|])
  {
    LineOfPrefix(s, k);
  }

  lemma {:induction false} TrailersOfPrefix(s: seq<byte>, k: nat)
    requires AfterTrailers(s).Some?
    requires k < |s| - |AfterTrailers(s).value|
    ensures k <= |s| && AfterTrailers(s[..k]) == None
    decreases |s|
  {
    var l := ReadLine(s).value;
    LineOfPrefix(s, k);
    if |l.text| <= k {
      TrailersOfPrefix(l.rest, k - |l.text|);
      TrailerOfPrefix(s, k);
    }
  }

  /** The first `n` bytes of a body, and then nothing. */
  function CutTo(whole: Decoded, n: nat): Decoded
    requires n <= |whole.data|
  {
    Decoded(whole.data[..n], Truncated)
  }

  lemma PrependToCut(a: seq<byte>, whole: Decoded, m: nat) returns (n: nat)
    requires m <= |whole.data|
    ensures n == |a| + m && Prepend(a, CutTo(whole, m)) == CutTo(Prepend(a, whole), n)
  {
    n := |a| + m;
    assert a + whole.data[..m] == (a + whole.data)[..n];
  }

  lemma DataIsCut(s: seq<byte>, k: nat, n: nat, mode: Mode)
    requires k < n <= |s|
    ensures k <= |Resume(s, n, mode).data| && Resume(s[..k], n, mode) == CutTo(Resume(s, n, mode), k)
  {
    var after := AfterData(s[n..], mode);
    assert (s[..n] + after.data)[..k] == s[..k];
  }

  lemma ResumePrefix(s: seq<byte>, k: nat, n: nat, mode: Mode)
    requires n <= k <= |s|
    ensures Resume(s[..k], n, mode) == Prepend(s[..n], AfterData(s[n..][..k - n], mode))
  {
    assert s[..k][..n] == s[..n] && s[..k][n..] == s[n..][..k - n];
  }

  lemma ChunkLineDecodes(s: seq<byte>, l: Line, n: int, mode: Mode)
    requires ReadLine(s) == Some(l) && ChunkSize(l.text) == Some(n)
    requires n > 0 || (n < 0 && mode.Batch?)
    ensures Decode(s, mode) == Resume(l.rest, if n < 0 then 0 else n, mode)
  {
  }

  lemma TerminatorDecodes(s: seq<byte>, rest: seq<byte>, mode: Mode)
    requires ReadLine(s) == Some(Line(CRLF, rest))
    ensures AfterData(s, mode) == Decode(rest, mode)
  {
  }

  lemma NoLineDecodes(p: seq<byte>, whole: Decoded, mode: Mode)
    requires ReadLine(p) == None
    ensures Decode(p, mode) == CutTo(whole, 0) && AfterData(p, mode) == CutTo(whole, 0)
  {
    assert whole.data[..0] == [];
  }

  lemma NoTrailersDecodes(p: seq<byte>, l: Line, whole: Decoded, mode: Mode)
    requires ReadLine(p) == Some(l) && ChunkSize(l.text) == Some(0) && AfterTrailers(l.rest) == None
    ensures Decode(p, mode) == CutTo(whole, 0)
  {
    assert whole.data[..0] == [];
  }

  /** Cutting a complete body short anywhere leaves a truncated one, whose bytes
      are the first bytes of the whole. */
  lemma {:induction false} CutShortIsTruncated(s: seq<byte>, k: nat, mode: Mode) returns (n: nat)
    requires Decode(s, mode).end.Complete?
    requires k < |s| - |Decode(s, mode).end.rest|
    ensures k <= |s| && n <= |Decode(s, mode).data|
    ensures Decode(s[..k], mode) == CutTo(Decode(s, mode), n)
    decreases |s|, 3
  {
    var l := ReadLine(s).value;
    LineOfPrefix(s, k);
    if k < |l.text| {
      n := 0;
      NoLineDecodes(s[..k], Decode(s, mode), mode);
    } else if ChunkSize(l.text) == Some(0) {
      n := 0;
      CutInTrailers(s, k, l, Decode(s, mode), mode);
    } else {
      var size := ChunkSize(l.text).value;
      PrefixDecodes(s, k, l, size, mode);
      n := ChunkCutShort(l.rest, k - |l.text|, if size < 0 then 0 else size, mode);
    }
  }

  lemma CutInTrailers(s: seq<byte>, k: nat, l: Line, whole: Decoded, mode: Mode)
    requires ReadLine(s) == Some(l) && ChunkSize(l.text) == Some(0) && AfterTrailers(l.rest).Some?
    requires |l.text| <= k <= |s| && k - |l.text| < |l.rest| - |AfterTrailers(l.rest).value|
    ensures Decode(s[..k], mode) == CutTo(whole, 0)
  {
    TrailersOfPrefix(l.rest, k - |l.text|);
    LineOfPrefix(s, k);
    NoTrailersDecodes(s[..k], Line(l.text, l.rest[..k - |l.text|]), whole, mode);
  }

  lemma PrefixDecodes(s: seq<byte>, k: nat, l: Line, size: int, mode: Mode)
    requires ReadLine(s) == Some(l) && ChunkSize(l.text) == Some(size)
    requires size > 0 || (size < 0 && mode.Batch?)
    requires |l.text| <= k <= |s|
    ensures
      var m := if size < 0 then 0 else size;
      && Decode(s, mode) == Resume(l.rest, m, mode)
      && Decode(s[..k], mode) == Resume(l.rest[..k - |l.text|], m, mode)
  {
    LineOfPrefix(s, k);
    ChunkLineDecodes(s, l, size, mode);
    ChunkLineDecodes(s[..k], Line(l.text, l.rest[..k - |l.text|]), size, mode);
  }

  lemma {:induction false} ChunkCutShort(s: seq<byte>, k: nat, size: nat, mode: Mode) returns (n: nat)
    requires Resume(s, size, mode).end.Complete?
    requires k < |s| - |Resume(s, size, mode).end.rest|
    ensures k <= |s| && n <= |Resume(s, size, mode).data|
    ensures Resume(s[..k], size, mode) == CutTo(Resume(s, size, mode), n)
    decreases |s|, 2
  {
    if k < size {
      n := k;
      DataIsCut(s, k, size, mode);
    } else {
      var data, after := s[..size], s[size..];
      assert Resume(s, size, mode) == Prepend(data, AfterData(after, mode));
      var m := TerminatorCutShort(after, k - size, mode);
      ResumePrefix(s, k, size, mode);
      n := PrependToCut(data, AfterData(after, mode), m);
    }
  }

  lemma {:induction false} TerminatorCutShort(s: seq<byte>, k: nat, mode: Mode) returns (n: nat)
    requires AfterData(s, mode).end.Complete?
    requires k < |s| - |AfterData(s, mode).end.rest|
    ensures k <= |s| && n <= |AfterData(s, mode).data|
    ensures AfterData(s[..k], mode) == CutTo(AfterData(s, mode), n)
    decreases |s|, 1
  {
    var l := ReadLine(s).value;
    LineOfPrefix(s, k);
    if k < |l.text| {
      n := 0;
      NoLineDecodes(s[..k], AfterData(s, mode), mode);
    } else {
      TerminatorDecodes(s, l.rest, mode);
      TerminatorDecodes(s[..k], l.rest[..k - |l.text|], mode);
      n := CutShortIsTruncated(l.rest, k - |l.text|, mode);
    }
  }
}
