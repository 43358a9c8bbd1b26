/** Moving page bytes: cutting one page's span out of a page body, streaming it
    while a fill is in flight, and splitting a cold full-object body into pages. */
module PageStreams {
  import opened RangePlan

  type byte = b: int | 0 <= b < 256

  /** The bytes of page `index` of an object. */
  function PageBytes(body: seq<byte>, pageSize: nat, index: nat): (page: seq<byte>)
    requires PageStart(index, pageSize) < |body|
    ensures |page| <= pageSize
  {
    body[PageStart(index, pageSize)..Min(PageStart(index, pageSize) + pageSize, |body|)]
  }

  function Flatten<T>(chunks: seq<seq<T>>): seq<T> {
    if chunks == [] then [] else Flatten(chunks[..|chunks| - 1]) + chunks[|chunks| - 1]
  }

  /** The part of `s` between offsets `from` and `to`, as far as `s` reaches. */
  function Window<T>(s: seq<T>, from: nat, to: nat): seq<T>
    requires from <= to
  {
    s[Min(from, |s|)..Min(to, |s|)]
  }

  lemma SliceOfSlice<T>(s: seq<T>, a: nat, b: nat, i: nat, j: nat)
    requires a <= b <= |s|
    requires i <= j <= b - a
    ensures s[a..b][i..j] == s[a + i..a + j]
  {
    forall k | 0 <= k < j - i
      ensures s[a..b][i..j][k] == s[a + i..a + j][k]
    {
    }
  }

  lemma FlattenNext<T>(chunks: seq<seq<T>>, i: nat)
    requires i < |chunks|
    ensures Flatten(chunks[..i + 1]) == Flatten(chunks[..i]) + chunks[i]
  {
    assert chunks[..i + 1][..i] == chunks[..i];
  }

  // ------------------------------------------------------------ one page span

  datatype Copied = Copied(bytes: seq<byte>, complete: bool)

  /** Skip to the span inside a page body and copy it. */
  function CopyPageSpan(src: seq<byte>, page: PageSpan, pageSize: nat): Copied
    requires 0 <= page.index
  {
    var start := page.start - PageStart(page.index, pageSize);
    var end := page.end - PageStart(page.index, pageSize);
    if start < 0 || end < start then Copied([], false)
    else if |src| < start then Copied([], false)
    else Copied(src[start..Min(end + 1, |src|)], end + 1 <= |src|)
  }

  /** Copying a span out of its page copies those bytes of the object. */
  lemma SpanOfPage(body: seq<byte>, page: PageSpan, pageSize: nat)
    requires InsidePage(page, pageSize)
    requires page.end < |body|
    ensures CopyPageSpan(PageBytes(body, pageSize, page.index), page, pageSize)
         == Copied(body[page.start..page.end + 1], true)
  {
    var from := PageStart(page.index, pageSize);
    var bytes := PageBytes(body, pageSize, page.index);
    SliceOfSlice(body, from, from + |bytes|, page.start - from, page.end - from + 1);
  }

  /** A span that can be copied out of the beginning of a page is the span of the
      whole page. */
  lemma SpanOfPrefix(data: seq<byte>, whole: seq<byte>, page: PageSpan, pageSize: nat)
    requires 0 <= page.index && data <= whole
    requires CopyPageSpan(data, page, pageSize).complete
    ensures CopyPageSpan(data, page, pageSize) == CopyPageSpan(whole, page, pageSize)
  {
  }

  /** A chunk outside a window leaves it alone. */
  lemma WindowStays(received: seq<byte>, data: seq<byte>, start: nat, end: nat)
    requires start <= end && (|received| + |data| <= start || |received| >= end)
    ensures Window(received + data, start, end) == Window(received, start, end)
  {
  }

  /** Any other chunk extends it by its overlap with the window. */
  lemma WindowGrows(received: seq<byte>, data: seq<byte>, start: nat, end: nat)
    requires start <= end && start < |received| + |data| && |received| < end
    ensures
      var a, b := |received|, |received| + |data|;
      Window(received + data, start, end) == Window(received, start, end) + data[Max(a, start) - a..Min(b, end) - a]
  {
    var all, a, b := received + data, |received|, |received| + |data|;
    var from, to := Max(a, start), Min(b, end);
    assert data[from - a..to - a] == all[from..to];
    if start < a {
      assert Window(received, start, end) == all[start..a];
      Concat(all, start, a, to);
    }
  }

  /** Forwards the overlap of each chunk with one span of the page it belongs to. */
  class PageSpanStream {
    const start: nat
    const end: nat
    var offset: nat
    var written: nat
    var dst: seq<byte>
    ghost var received: seq<byte>

    ghost predicate Valid()
      reads this
    {
      && start <= end
      && offset == |received|
      && written == |dst|
      && dst == Window(received, start, end)
    }

    constructor (page: PageSpan, pageSize: nat)
      requires InsidePage(page, pageSize)
      ensures Valid() && dst == [] && received == []
      ensures start == page.start - PageStart(page.index, pageSize)
      ensures end == page.end - PageStart(page.index, pageSize) + 1
    {
      start := page.start - PageStart(page.index, pageSize);
      end := page.end - PageStart(page.index, pageSize) + 1;
      offset, written, dst, received := 0, 0, [], [];
    }

    method Write(data: seq<byte>) returns (n: nat)
      requires Valid()
      modifies this
      ensures Valid()
      ensures received == old(received) + data
      ensures n == |data|
    {
      var chunkStart, chunkEnd := offset, offset + |data|;
      offset := chunkEnd;
      received := received + data;
      n := |data|;
      if chunkEnd <= start || chunkStart >= end {
        WindowStays(old(received), data, start, end);
        return;
      }
      WindowGrows(old(received), data, start, end);
      var from := Max(chunkStart, start) - chunkStart;
      var to := Min(chunkEnd, end) - chunkStart;
      dst := dst + data[from..to];
      written := written + (to - from);
    }
  }

  /** The read loop of a page fill: every chunk goes to the page writer and, cut
      to the requested span, to the client. What the client gets is what copying
      the stored page would give, however the response was chunked. */
  method CopyPageResponseToWriter(chunks: seq<seq<byte>>, page: PageSpan, pageSize: nat)
    returns (stored: seq<byte>, sent: seq<byte>, total: nat)
    requires InsidePage(page, pageSize)
    ensures stored == Flatten(chunks)
    ensures total == |stored|
    ensures sent == CopyPageSpan(stored, page, pageSize).bytes
  {
    var stream := new PageSpanStream(page, pageSize);
    stored, total := [], 0;
    for i := 0 to |chunks|
      invariant stream.Valid()
      invariant stream.received == stored == Flatten(chunks[..i])
      invariant total == |stored|
    {
      FlattenNext(chunks, i);
      stored := stored + chunks[i];
      total := total + |chunks[i]|;
      var _ := stream.Write(chunks[i]);
    }
    assert chunks[..|chunks|] == chunks;
    sent := stream.dst;
  }

  /** A page fill of the right page sends exactly the requested bytes. */
  lemma FillSendsSpan(body: seq<byte>, chunks: seq<seq<byte>>, page: PageSpan, pageSize: nat)
    requires InsidePage(page, pageSize)
    requires page.end < |body|
    requires Flatten(chunks) == PageBytes(body, pageSize, page.index)
    ensures CopyPageSpan(Flatten(chunks), page, pageSize) == Copied(body[page.start..page.end + 1], true)
  {
    SpanOfPage(body, page, pageSize);
  }

  // ---------------------------------------------------------- cold full object

  datatype PageCommit = PageCommit(index: nat, bytes: seq<byte>)

  /** `commits` are the pages 0..|commits| of `body`, each once and in order. */
  ghost predicate ArePages(commits: seq<PageCommit>, body: seq<byte>, pageSize: nat) {
    && (|commits| > 0 ==> PageStart(|commits| - 1, pageSize) < |body|)
    && forall i :: 0 <= i < |commits| ==> IsPage(commits[i], i, body, pageSize)
  }

  ghost predicate IsPage(c: PageCommit, i: nat, body: seq<byte>, pageSize: nat) {
    c.index == i && PageStart(i, pageSize) < |body| && c.bytes == PageBytes(body, pageSize, i)
  }

  /** State between two chunks: `committed` are the full pages received so far
      and `buffer` is the open page writer's content. */
  ghost predicate Buffering(committed: seq<PageCommit>, buffer: seq<byte>, received: seq<byte>, pageSize: nat) {
    && PageStart(|committed|, pageSize) <= |received|
    && buffer == received[PageStart(|committed|, pageSize)..]
    && ArePages(committed, received, pageSize)
    && forall i :: 0 <= i < |committed| ==> |committed[i].bytes| == pageSize
  }

  /** Pages that are full stay the same pages when more bytes arrive. */
  lemma MoreBytes(committed: seq<PageCommit>, buffer: seq<byte>, received: seq<byte>, more: seq<byte>, pageSize: nat)
    requires Buffering(committed, buffer, received, pageSize)
    ensures Buffering(committed, buffer + more, received + more, pageSize)
  {
    forall i | 0 <= i < |committed|
      ensures IsPage(committed[i], i, received + more, pageSize)
    {
      assert IsPage(committed[i], i, received, pageSize);
      PageStartMonotone(i, |committed|, pageSize);
    }
  }

  lemma CommitFullPage(committed: seq<PageCommit>, buffer: seq<byte>, received: seq<byte>, pageSize: nat)
    requires Buffering(committed, buffer, received, pageSize)
    requires |buffer| == pageSize > 0
    ensures Buffering(committed + [PageCommit(|committed|, buffer)], [], received, pageSize)
  {
    var k := |committed|;
    var more := committed + [PageCommit(k, buffer)];
    assert PageStart(k + 1, pageSize) == PageStart(k, pageSize) + pageSize == |received|;
    forall i | 0 <= i < |more|
      ensures IsPage(more[i], i, received, pageSize)
    {
      assert i < k ==> IsPage(committed[i], i, received, pageSize);
    }
  }

  /** What is committed once the body has ended. */
  function FinalCommits(committed: seq<PageCommit>, buffer: seq<byte>): seq<PageCommit> {
    if |buffer| > 0 then committed + [PageCommit(|committed|, buffer)] else committed
  }

  /** Together the commits are the pages of the body, and they reach its end. */
  ghost predicate AllPages(commits: seq<PageCommit>, body: seq<byte>, pageSize: nat) {
    ArePages(commits, body, pageSize) && |body| <= PageStart(|commits|, pageSize)
  }

  lemma CommitLastPage(committed: seq<PageCommit>, buffer: seq<byte>, received: seq<byte>, pageSize: nat)
    requires Buffering(committed, buffer, received, pageSize)
    requires |buffer| < pageSize
    ensures AllPages(FinalCommits(committed, buffer), received, pageSize)
  {
    var k := |committed|;
    var more := FinalCommits(committed, buffer);
    assert PageStart(k + 1, pageSize) == PageStart(k, pageSize) + pageSize;
    assert |buffer| == |received| - PageStart(k, pageSize);
    forall i | 0 <= i < |more|
      ensures IsPage(more[i], i, received, pageSize)
    {
      assert i < k ==> IsPage(committed[i], i, received, pageSize);
    }
  }

  /** Feed one chunk to the open page, committing every page that fills up. */
  method BufferColdFullPage(committed: seq<PageCommit>, buffer: seq<byte>, chunk: seq<byte>, pageSize: nat,
                            ghost received: seq<byte>)
    returns (committed': seq<PageCommit>, buffer': seq<byte>)
    requires 0 < pageSize
    requires |buffer| < pageSize
    requires Buffering(committed, buffer, received, pageSize)
    ensures |buffer'| < pageSize
    ensures Buffering(committed', buffer', received + chunk, pageSize)
  {
    committed', buffer' := committed, buffer;
    var rest := chunk;
    ghost var seen := received;
    while |rest| > 0
      invariant |buffer'| < pageSize
      invariant Buffering(committed', buffer', seen, pageSize)
      invariant seen + rest == received + chunk
      decreases |rest|
    {
      var remaining := Min(pageSize - |buffer'|, |rest|);
      MoreBytes(committed', buffer', seen, rest[..remaining], pageSize);
      buffer' := buffer' + rest[..remaining];
      seen := seen + rest[..remaining];
      rest := rest[remaining..];
      if |buffer'| == pageSize {
        CommitFullPage(committed', buffer', seen, pageSize);
        committed', buffer' := committed' + [PageCommit(|committed'|, buffer')], [];
      }
    }
    assert seen == received + chunk;
  }

  /** Stream a full body to the client while storing its pages. `ok` is the
      length check made at the end, after the last page was committed. */
  method StreamColdFullObject(chunks: seq<seq<byte>>, pageSize: nat, objectSize: nat)
    returns (sent: seq<byte>, commits: seq<PageCommit>, ok: bool)
    requires 0 < pageSize
    ensures sent == Flatten(chunks)
    ensures ok <==> |sent| == objectSize
    ensures AllPages(commits, sent, pageSize)
  {
    var buffer: seq<byte> := [];
    sent, commits := [], [];
    for i := 0 to |chunks|
      invariant |buffer| < pageSize
      invariant Buffering(commits, buffer, sent, pageSize)
      invariant sent == Flatten(chunks[..i])
    {
      FlattenNext(chunks, i);
      commits, buffer := BufferColdFullPage(commits, buffer, chunks[i], pageSize, sent);
      sent := sent + chunks[i];
    }
    assert chunks[..|chunks|] == chunks;
    CommitLastPage(commits, buffer, sent, pageSize);
    if |buffer| > 0 {
      commits := commits + [PageCommit(|commits|, buffer)];
    }
    ok := |sent| == objectSize;
  }

  /** A full page of a body is that page of every longer body. */
  lemma FullPageOfPrefix(body: seq<byte>, whole: seq<byte>, pageSize: nat, index: nat)
    requires 0 < pageSize && body <= whole && PageStart(index, pageSize) + pageSize <= |body|
    ensures PageBytes(body, pageSize, index) == PageBytes(whole, pageSize, index)
  {
  }

  /** The number of pages follows from the length of the body. */
  lemma PageBoundary(size: nat, pages: nat, pageSize: nat)
    requires 0 < pageSize
    requires size <= PageStart(pages, pageSize) && (pages > 0 ==> PageStart(pages - 1, pageSize) < size)
    ensures size == PageStart(pages, pageSize) <==> size % pageSize == 0
  {
    var q := size / pageSize;
    PageStartIsProduct(q, pageSize);
    PageOfByte(size, pageSize);
    if size == PageStart(pages, pageSize) {
      assert PageStart(pages + 1, pageSize) == PageStart(pages, pageSize) + pageSize;
      PageOfByteIsUnique(size, q, pages, pageSize);
    } else {
      assert pages > 0;
      assert PageStart(pages, pageSize) == PageStart(pages - 1, pageSize) + pageSize;
      PageOfByteIsUnique(size, q, pages - 1, pageSize);
    }
  }

  /** The pages of a body that stops early are pages of the whole object exactly
      when nothing is missing or the body stops at a page boundary. */
  lemma ColdPagesOfTruncatedBody(commits: seq<PageCommit>, body: seq<byte>, whole: seq<byte>, pageSize: nat)
    requires 0 < pageSize
    requires body <= whole
    requires AllPages(commits, body, pageSize)
    ensures ArePages(commits, whole, pageSize) <==> body == whole || |body| % pageSize == 0
  {
    PageBoundary(|body|, |commits|, pageSize);
    ColdPagesAtBoundary(commits, body, whole, pageSize);
  }

  /** A body of one byte in place of two, in pages of two. */
  lemma CutPageIsNoPage(first: byte, second: byte)
    ensures AllPages([PageCommit(0, [first])], [first], 2)
    ensures !ArePages([PageCommit(0, [first])], [first, second], 2)
  {
    var commits := [PageCommit(0, [first])];
    assert PageStart(1, 2) == 2;
    assert IsPage(commits[0], 0, [first], 2);
    ColdPagesOfTruncatedBody(commits, [first], [first, second], 2);
  }

  lemma ColdPagesAtBoundary(commits: seq<PageCommit>, body: seq<byte>, whole: seq<byte>, pageSize: nat)
    requires 0 < pageSize
    requires body <= whole
    requires AllPages(commits, body, pageSize)
    ensures ArePages(commits, whole, pageSize) <==> body == whole || |body| == PageStart(|commits|, pageSize)
  {
    var k := |commits|;
    forall i | 0 <= i < k - 1
      ensures IsPage(commits[i], i, whole, pageSize)
    {
      PageStartMonotone(i + 1, k - 1, pageSize);
      assert IsPage(commits[i], i, body, pageSize);
      FullPageOfPrefix(body, whole, pageSize, i);
    }
    if k > 0 {
      assert PageStart(k, pageSize) == PageStart(k - 1, pageSize) + pageSize;
      assert IsPage(commits[k - 1], k - 1, body, pageSize);
      assert ArePages(commits, whole, pageSize) ==> IsPage(commits[k - 1], k - 1, whole, pageSize);
    }
  }

  /** The stored pages are those of the page bounds, and there is one for every
      page index that the object has. */
  lemma ColdPagesMatchBounds(commits: seq<PageCommit>, body: seq<byte>, pageSize: nat, index: nat)
    requires 0 < pageSize && 0 < |body| && |body| + pageSize <= MAX_INT64
    requires AllPages(commits, body, pageSize)
    ensures index < |commits| ==>
              match PageBounds(index, pageSize, |body|)
              case Ok(b) => 0 <= b.start <= b.end < |body|
                  && commits[index] == PageCommit(index, body[b.start..b.end + 1])
              case Err(_) => false
    ensures index <= (|body| - 1) / pageSize ==> index < |commits|
  {
    PageOfByte(|body| - 1, pageSize);
    PageStartIsProduct(index, pageSize);
    if index < |commits| {
      assert IsPage(commits[index], index, body, pageSize);
    } else {
      PageStartMonotone(|commits|, index, pageSize);
      if index <= (|body| - 1) / pageSize {
        PageStartMonotone(index, (|body| - 1) / pageSize, pageSize);
      }
    }
  }
}
