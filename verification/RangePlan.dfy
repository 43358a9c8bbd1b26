/** Page planning: which pages, and which bytes of each, serve a byte range.
    The arithmetic is that of 64-bit signed integers, so it wraps. */
module RangePlan {
  import opened Results

  const MAX_INT64: int := 0x7FFF_FFFF_FFFF_FFFF
  const TWO_64: int := 0x1_0000_0000_0000_0000

  datatype ByteRange = ByteRange(start: int, end: int)

  datatype PageSpan = PageSpan(index: int, start: int, end: int)

  predicate IsInt64(x: int) {
    -MAX_INT64 - 1 <= x <= MAX_INT64
  }

  /** Two's-complement truncation to 64 bits. */
  function Wrap64(x: int): (w: int)
    ensures IsInt64(w)
    ensures (w - x) % TWO_64 == 0
    ensures IsInt64(x) ==> w == x
  {
    (x + MAX_INT64 + 1) % TWO_64 - MAX_INT64 - 1
  }

  function Min(a: int, b: int): int {
    if a < b then a else b
  }

  function Max(a: int, b: int): int {
    if a > b then a else b
  }

  // ------------------------------------------------------------ page starts

  /** First byte of page `index`, counted up page by page: the product
      `index * pageSize`, in a form that keeps the proofs linear. */
  function PageStart(index: nat, pageSize: nat): nat {
    if index == 0 then 0 else PageStart(index - 1, pageSize) + pageSize
  }

  lemma {:induction false} PageStartIsProduct(index: nat, pageSize: nat)
    ensures PageStart(index, pageSize) == index * pageSize
  {
    if index != 0 {
      PageStartIsProduct(index - 1, pageSize);
      assert index * pageSize == (index - 1) * pageSize + pageSize;
    }
  }

  lemma {:induction false} PageStartMonotone(i: nat, j: nat, pageSize: nat)
    requires i <= j
    ensures PageStart(i, pageSize) <= PageStart(j, pageSize)
    ensures i < j ==> PageStart(i, pageSize) + pageSize <= PageStart(j, pageSize)
    decreases j
  {
    if i < j {
      PageStartMonotone(i, j - 1, pageSize);
    }
  }

  /** The page that holds byte `x` is the quotient of `x` by the page size. */
  lemma PageOfByte(x: nat, pageSize: nat)
    requires 0 < pageSize
    ensures PageStart(x / pageSize, pageSize) <= x < PageStart(x / pageSize, pageSize) + pageSize
  {
    PageStartIsProduct(x / pageSize, pageSize);
  }

  lemma PageOfByteIsUnique(x: nat, i: nat, j: nat, pageSize: nat)
    requires PageStart(i, pageSize) <= x < PageStart(i, pageSize) + pageSize
    requires PageStart(j, pageSize) <= x < PageStart(j, pageSize) + pageSize
    ensures i == j
  {
    if i < j {
      PageStartMonotone(i, j, pageSize);
    } else if j < i {
      PageStartMonotone(j, i, pageSize);
    }
  }

  // ---------------------------------------------------------------- tilings

  /** The span lies inside the page that its index names. */
  predicate InsidePage(s: PageSpan, pageSize: nat) {
    && 0 <= s.index
    && PageStart(s.index, pageSize) <= s.start <= s.end < PageStart(s.index, pageSize) + pageSize
  }

  /** `spans` cuts `r` at page boundaries and nowhere else: pages in order, none
      skipped, no byte lost, none repeated. */
  ghost predicate Tiles(spans: seq<PageSpan>, r: ByteRange, pageSize: nat) {
    && |spans| > 0
    && spans[0].start == r.start
    && spans[|spans| - 1].end == r.end
    && (forall i :: 0 <= i < |spans| ==> InsidePage(spans[i], pageSize))
    && (forall i :: 0 <= i < |spans| ==> spans[i].index == spans[0].index + i)
    && (forall i {:trigger spans[i].end} :: 0 <= i < |spans| - 1 ==> spans[i].end + 1 == spans[i + 1].start)
  }

  /** The span of page `index` in `r`, over the integers. */
  function SpanAt(r: ByteRange, pageSize: nat, index: nat): PageSpan {
    PageSpan(index, Max(r.start, PageStart(index, pageSize)),
      Min(r.end, PageStart(index, pageSize) + pageSize - 1))
  }

  predicate ValidRange(r: ByteRange) {
    0 <= r.start <= r.end
  }

  /** The spans of `r`, over the integers. */
  function Spans(r: ByteRange, pageSize: nat): (spans: seq<PageSpan>)
    requires ValidRange(r)
    requires 0 < pageSize
    ensures |spans| == r.end / pageSize - r.start / pageSize + 1
  {
    PagesInOrder(r, pageSize);
    SpansBetween(r, pageSize, r.start / pageSize, r.end / pageSize)
  }

  function SpansBetween(r: ByteRange, pageSize: nat, first: nat, last: nat): (spans: seq<PageSpan>)
    requires first <= last
    ensures |spans| == last - first + 1
    ensures forall i :: 0 <= i < |spans| ==> spans[i] == SpanAt(r, pageSize, first + i)
  {
    seq(last - first + 1, i requires 0 <= i => SpanAt(r, pageSize, first + i))
  }

  lemma PagesInOrder(r: ByteRange, pageSize: nat)
    requires ValidRange(r)
    requires 0 < pageSize
    ensures 0 <= r.start / pageSize <= r.end / pageSize
  {
    PageOfByte(r.start, pageSize);
    PageOfByte(r.end, pageSize);
    if r.end / pageSize < r.start / pageSize {
      PageStartMonotone(r.end / pageSize, r.start / pageSize, pageSize);
    }
  }

  lemma SpanFits(r: ByteRange, pageSize: nat, first: nat, last: nat, page: nat)
    requires ValidRange(r)
    requires PageStart(first, pageSize) <= r.start < PageStart(first, pageSize) + pageSize
    requires PageStart(last, pageSize) <= r.end < PageStart(last, pageSize) + pageSize
    requires first <= page <= last
    ensures InsidePage(SpanAt(r, pageSize, page), pageSize)
    ensures page < last ==> SpanAt(r, pageSize, page).end + 1 == SpanAt(r, pageSize, page + 1).start
  {
    PageStartMonotone(first, page, pageSize);
    PageStartMonotone(page, last, pageSize);
    if page < last {
      PageStartMonotone(page + 1, last, pageSize);
    }
  }

  /** The spans from page `first` to page `last` tile the range they cover. */
  lemma SpansTileBetween(spans: seq<PageSpan>, r: ByteRange, pageSize: nat, first: nat, last: nat)
    requires ValidRange(r)
    requires first <= last
    requires PageStart(first, pageSize) <= r.start < PageStart(first, pageSize) + pageSize
    requires PageStart(last, pageSize) <= r.end < PageStart(last, pageSize) + pageSize
    requires |spans| == last - first + 1
    requires forall i :: 0 <= i < |spans| ==> spans[i] == SpanAt(r, pageSize, first + i)
    ensures Tiles(spans, r, pageSize)
  {
    forall i | 0 <= i < |spans|
      ensures InsidePage(spans[i], pageSize)
      ensures i < |spans| - 1 ==> spans[i].end + 1 == spans[i + 1].start
    {
      SpanFits(r, pageSize, first, last, first + i);
    }
  }

  lemma SpansTile(r: ByteRange, pageSize: nat)
    requires ValidRange(r)
    requires 0 < pageSize
    ensures Tiles(Spans(r, pageSize), r, pageSize)
  {
    var first, last := r.start / pageSize, r.end / pageSize;
    PagesInOrder(r, pageSize);
    PageOfByte(r.start, pageSize);
    PageOfByte(r.end, pageSize);
    SpansTileBetween(Spans(r, pageSize), r, pageSize, first, last);
  }

  /** Each span of a tiling is the part of the range in its page. */
  lemma TileIsSpanAt(spans: seq<PageSpan>, r: ByteRange, pageSize: nat, i: nat)
    requires Tiles(spans, r, pageSize)
    requires i < |spans|
    ensures 0 <= spans[i].index
    ensures spans[i] == SpanAt(r, pageSize, spans[i].index)
  {
    TileStart(spans, r, pageSize, i);
    TileEnd(spans, r, pageSize, i, |spans| - 1);
    if i < |spans| - 1 {
      TileStart(spans, r, pageSize, i + 1);
      assert spans[i].end + 1 == spans[i + 1].start;
      assert spans[i + 1].index == spans[i].index + 1;
      assert PageStart(spans[i].index + 1, pageSize) == PageStart(spans[i].index, pageSize) + pageSize;
    }
  }

  /** The page of the byte at either end of a span. */
  lemma SpanPage(s: PageSpan, pageSize: nat, x: nat)
    requires 0 < pageSize
    requires InsidePage(s, pageSize)
    requires x == s.start || x == s.end
    ensures s.index == x / pageSize
  {
    PageOfByte(x, pageSize);
    PageOfByteIsUnique(x, s.index, x / pageSize, pageSize);
  }

  /** A range has exactly one tiling, so `Tiles` is a complete specification. */
  lemma TilingIsUnique(spans: seq<PageSpan>, r: ByteRange, pageSize: nat)
    requires ValidRange(r)
    requires 0 < pageSize
    requires Tiles(spans, r, pageSize)
    ensures spans == Spans(r, pageSize)
  {
    SpanPage(spans[0], pageSize, r.start);
    SpanPage(spans[|spans| - 1], pageSize, r.end);
    TilingIsSpansBetween(spans, r, pageSize);
  }

  lemma TilingIsSpansBetween(spans: seq<PageSpan>, r: ByteRange, pageSize: nat)
    requires Tiles(spans, r, pageSize)
    ensures 0 <= spans[0].index <= spans[|spans| - 1].index
    ensures spans == SpansBetween(r, pageSize, spans[0].index, spans[|spans| - 1].index)
  {
    TileIsSpanAt(spans, r, pageSize, 0);
    var between := SpansBetween(r, pageSize, spans[0].index, spans[|spans| - 1].index);
    forall i | 0 <= i < |spans|
      ensures spans[i] == between[i]
    {
      TileIsSpanAt(spans, r, pageSize, i);
    }
  }

  /** Every span after the first starts where its page starts. */
  lemma TileStart(spans: seq<PageSpan>, r: ByteRange, pageSize: nat, i: nat)
    requires Tiles(spans, r, pageSize)
    requires i < |spans|
    ensures InsidePage(spans[i], pageSize)
    ensures 0 < i ==> spans[i].start == PageStart(spans[i].index, pageSize)
    ensures r.start <= spans[i].start
  {
    assert InsidePage(spans[i], pageSize);
    if 0 < i {
      assert InsidePage(spans[i - 1], pageSize);
      assert spans[i - 1].end + 1 == spans[i].start;
      assert spans[i].index == spans[i - 1].index + 1;
      assert PageStart(spans[i].index, pageSize) == PageStart(spans[i - 1].index, pageSize) + pageSize;
      TileStart(spans, r, pageSize, i - 1);
    }
  }

  lemma TileEnd(spans: seq<PageSpan>, r: ByteRange, pageSize: nat, i: nat, j: nat)
    requires Tiles(spans, r, pageSize)
    requires i <= j < |spans|
    ensures spans[i].end <= spans[j].end
    decreases j
  {
    if i < j {
      TileEnd(spans, r, pageSize, i, j - 1);
      assert spans[j - 1].end + 1 == spans[j].start;
      assert InsidePage(spans[j], pageSize);
    }
  }

  /** The bytes of one span. */
  function SpanBytes<T>(body: seq<T>, span: PageSpan): seq<T> {
    if 0 <= span.start <= span.end < |body| then body[span.start..span.end + 1] else []
  }

  /** The bytes that the spans select, in order. */
  function Select<T>(body: seq<T>, spans: seq<PageSpan>): seq<T> {
    if spans == [] then []
    else Select(body, spans[..|spans| - 1]) + SpanBytes(body, spans[|spans| - 1])
  }

  lemma Concat<T>(body: seq<T>, a: nat, b: nat, c: nat)
    requires a <= b <= c <= |body|
    ensures body[a..b] + body[b..c] == body[a..c]
  {
  }

  lemma SelectLast<T>(body: seq<T>, spans: seq<PageSpan>, n: nat)
    requires 0 < n <= |spans|
    ensures Select(body, spans[..n]) == Select(body, spans[..n - 1]) + SpanBytes(body, spans[n - 1])
  {
    assert spans[..n][..n - 1] == spans[..n - 1];
  }

  /** The first `n` spans select everything from `start` up to the n-th cut. */
  ghost predicate SelectsUpTo<T>(body: seq<T>, spans: seq<PageSpan>, start: int, n: nat) {
    && SpansInBody(spans, |body|) && 0 < n <= |spans|
    && 0 <= start <= spans[n - 1].end
    && Select(body, spans[..n]) == body[start..spans[n - 1].end + 1]
  }

  lemma SelectsOneMore<T>(body: seq<T>, spans: seq<PageSpan>, start: int, n: nat)
    requires 0 < n < |spans| && SelectsUpTo(body, spans, start, n)
    requires spans[n - 1].end + 1 == spans[n].start
    ensures SelectsUpTo(body, spans, start, n + 1)
  {
    var cut, end := spans[n].start, spans[n].end + 1;
    assert 0 <= cut < end <= |body|;
    SelectLast(body, spans, n + 1);
    assert Select(body, spans[..n + 1]) == body[start..cut] + body[cut..end];
    Concat(body, start, cut, end);
  }

  /** After `n` spans of a tiling exactly the range up to the n-th cut is out. */
  lemma {:induction false} TilingSelectsPrefix<T>(body: seq<T>, spans: seq<PageSpan>, r: ByteRange,
        pageSize: nat, n: nat)
    requires Tiles(spans, r, pageSize)
    requires SpansInBody(spans, |body|)
    requires 0 < n <= |spans|
    ensures SelectsUpTo(body, spans, r.start, n)
  {
    if n == 1 {
      assert Select(body, spans[..0]) == [];
      SelectLast(body, spans, 1);
    } else {
      TilingSelectsPrefix(body, spans, r, pageSize, n - 1);
      assert spans[n - 2].end + 1 == spans[n - 1].start;
      SelectsOneMore(body, spans, r.start, n - 1);
    }
  }

  predicate SpansInBody(spans: seq<PageSpan>, size: nat) {
    forall i :: 0 <= i < |spans| ==> 0 <= spans[i].start <= spans[i].end < size
  }

  lemma TilingWithin(spans: seq<PageSpan>, r: ByteRange, pageSize: nat)
    requires ValidRange(r)
    requires Tiles(spans, r, pageSize)
    ensures SpansInBody(spans, r.end + 1)
  {
    forall i | 0 <= i < |spans|
      ensures 0 <= spans[i].start <= spans[i].end < r.end + 1
    {
      TileStart(spans, r, pageSize, i);
      TileEnd(spans, r, pageSize, i, |spans| - 1);
    }
  }

  /** Serving every span of a tiling serves exactly the range. */
  lemma TilingSelects<T>(body: seq<T>, spans: seq<PageSpan>, r: ByteRange, pageSize: nat)
    requires ValidRange(r) && r.end < |body|
    requires Tiles(spans, r, pageSize)
    ensures SpansInBody(spans, |body|)
    ensures Select(body, spans) == body[r.start..r.end + 1]
  {
    TilingWithin(spans, r, pageSize);
    TilingSelectsPrefix(body, spans, r, pageSize, |spans|);
    SelectsAll(body, spans, r.start);
  }

  lemma TilingSelectsRange<T>(body: seq<T>, r: ByteRange, pageSize: nat)
    requires ValidRange(r) && r.end < |body|
    requires 0 < pageSize
    ensures SpansInBody(Spans(r, pageSize), |body|)
    ensures Select(body, Spans(r, pageSize)) == body[r.start..r.end + 1]
  {
    SpansTile(r, pageSize);
    TilingSelects(body, Spans(r, pageSize), r, pageSize);
  }

  lemma SelectsAll<T>(body: seq<T>, spans: seq<PageSpan>, start: int)
    requires spans != [] && SelectsUpTo(body, spans, start, |spans|)
    ensures Select(body, spans) == body[start..spans[|spans| - 1].end + 1]
  {
    assert spans[..|spans|] == spans;
  }

  // ------------------------------------------------- 64-bit page enumeration

  /** One loop iteration of the enumeration, in wrapping arithmetic. */
  function SpanAt64(r: ByteRange, pageSize: int, index: int): PageSpan {
    var pageStart := Wrap64(index * pageSize);
    var pageEnd := Wrap64(Wrap64(pageStart + pageSize) - 1);
    PageSpan(index, Max(r.start, pageStart), Min(r.end, pageEnd))
  }

  /** The last page of the range ends at a 64-bit offset. */
  predicate LastPageFits(r: ByteRange, pageSize: nat)
    requires 0 < pageSize
  {
    r.end / pageSize * pageSize + pageSize - 1 <= MAX_INT64
  }

  /** The page index must not pass MAX_INT64: only with a page size of 1 could it,
      and then the loop of a range that ends there would not stop. */
  method PagesForRange(r: ByteRange, pageSize: int) returns (res: Result<seq<PageSpan>>)
    requires IsInt64(r.start) && IsInt64(r.end) && IsInt64(pageSize)
    requires pageSize == 1 ==> r.end < MAX_INT64
    ensures res.Ok? <==> 0 <= r.start <= r.end && 0 < pageSize
    ensures res.Ok? ==>
              (Tiles(res.value, r, pageSize) <==> LastPageFits(r, pageSize))
    ensures res.Ok? ==> |res.value| == r.end / pageSize - r.start / pageSize + 1
  {
    if r.start < 0 {
      return Err("range start must not be negative");
    }
    if r.end < r.start {
      return Err("range end must not be before start");
    }
    if pageSize <= 0 {
      return Err("page size must be greater than zero");
    }
    var first, last := r.start / pageSize, r.end / pageSize;
    PagesInOrder(r, pageSize);
    var pages: seq<PageSpan> := [];
    var index := first;
    while index <= last
      invariant first <= index <= last + 1
      invariant |pages| == index - first
      invariant forall i :: 0 <= i < |pages| ==> pages[i] == SpanAt64(r, pageSize, first + i)
      decreases last + 1 - index
    {
      var pageStart := Wrap64(index * pageSize);
      var pageEnd := Wrap64(Wrap64(pageStart + pageSize) - 1);
      pages := pages + [PageSpan(index, Max(r.start, pageStart), Min(r.end, pageEnd))];
      index := index + 1;
    }
    WrappedTiling(pages, r, pageSize);
    res := Ok(pages);
  }

  lemma WrappedSpan(r: ByteRange, pageSize: nat, index: nat)
    requires PageStart(index, pageSize) + pageSize - 1 <= MAX_INT64
    ensures SpanAt64(r, pageSize, index) == SpanAt(r, pageSize, index)
  {
    PageStartIsProduct(index, pageSize);
  }

  /** The enumeration tiles the range exactly when the last page's end is a
      64-bit number. */
  lemma WrappedTiling(pages: seq<PageSpan>, r: ByteRange, pageSize: nat)
    requires ValidRange(r) && r.end <= MAX_INT64
    requires 0 < pageSize <= MAX_INT64
    requires |pages| == r.end / pageSize - r.start / pageSize + 1
    requires forall i :: 0 <= i < |pages| ==> pages[i] == SpanAt64(r, pageSize, r.start / pageSize + i)
    ensures Tiles(pages, r, pageSize) <==> LastPageFits(r, pageSize)
  {
    var last := r.end / pageSize;
    PagesInOrder(r, pageSize);
    if LastPageFits(r, pageSize) {
      UnwrappedPages(pages, r, pageSize);
      SpansTile(r, pageSize);
    } else {
      PageOfByte(r.end, pageSize);
      PageStartIsProduct(last, pageSize);
      OverflowingSpan(r, pageSize, last);
      assert pages[|pages| - 1].end < 0;
    }
  }

  lemma UnwrappedPages(pages: seq<PageSpan>, r: ByteRange, pageSize: nat)
    requires ValidRange(r) && r.end <= MAX_INT64
    requires 0 < pageSize <= MAX_INT64
    requires |pages| == r.end / pageSize - r.start / pageSize + 1
    requires forall i :: 0 <= i < |pages| ==> pages[i] == SpanAt64(r, pageSize, r.start / pageSize + i)
    requires LastPageFits(r, pageSize)
    ensures pages == Spans(r, pageSize)
  {
    var first, last := r.start / pageSize, r.end / pageSize;
    PagesInOrder(r, pageSize);
    PageOfByte(r.end, pageSize);
    PageStartIsProduct(last, pageSize);
    forall i | 0 <= i < |pages|
      ensures pages[i] == SpanAt(r, pageSize, first + i)
    {
      PageStartMonotone(first + i, last, pageSize);
      WrappedSpan(r, pageSize, first + i);
    }
  }

  lemma OverflowingSpan(r: ByteRange, pageSize: nat, last: nat)
    requires ValidRange(r) && r.end <= MAX_INT64
    requires 0 < pageSize <= MAX_INT64
    requires last * pageSize <= r.end && last * pageSize + pageSize - 1 > MAX_INT64
    ensures SpanAt64(r, pageSize, last).end < 0
  {
    var pageStart := last * pageSize;
    assert Wrap64(pageStart) == pageStart;
  }

  /** Three bytes below the largest 64-bit offset, in pages of three: the page of
      the last of them ends beyond that offset. */
  lemma LastPageOverflows()
    ensures
      var r := ByteRange(MAX_INT64 - 3, MAX_INT64 - 1);
      && !LastPageFits(r, 3)
      && !Tiles([SpanAt64(r, 3, r.start / 3), SpanAt64(r, 3, r.end / 3)], r, 3)
  {
    var r := ByteRange(MAX_INT64 - 3, MAX_INT64 - 1);
    var pages := [SpanAt64(r, 3, r.start / 3), SpanAt64(r, 3, r.end / 3)];
    assert r.end / 3 == r.start / 3 + 1;
    WrappedTiling(pages, r, 3);
  }

  // ------------------------------------------------------------ page bounds

  /** The bytes of one page, over the integers. */
  function ExactBounds(index: int, pageSize: int, objectSize: int): Option<PageSpan> {
    if index < 0 || pageSize <= 0 || objectSize <= 0 || index * pageSize >= objectSize then None
    else Some(PageSpan(index, index * pageSize, Min(index * pageSize + pageSize - 1, objectSize - 1)))
  }

  function PageBounds(index: int, pageSize: int, objectSize: int): Result<PageSpan> {
    if index < 0 then Err("page index must not be negative")
    else if pageSize <= 0 then Err("page size must be greater than zero")
    else if objectSize <= 0 then Err("object size must be greater than zero")
    else
      var start := Wrap64(index * pageSize);
      if start >= objectSize then Err("page start is beyond object size")
      else Ok(PageSpan(index, start, Min(Wrap64(Wrap64(start + pageSize) - 1), objectSize - 1)))
  }

  predicate BoundsAgree(index: int, pageSize: int, objectSize: int) {
    match PageBounds(index, pageSize, objectSize)
    case Ok(s) => ExactBounds(index, pageSize, objectSize) == Some(s)
    case Err(_) => ExactBounds(index, pageSize, objectSize) == None
  }

  /** Exactly when the 64-bit computation finds the page that is there: either
      nothing overflows, or the wrapped start happens to fall beyond the object. */
  lemma BoundsAgreeExactly(index: int, pageSize: int, objectSize: int)
    requires IsInt64(index) && IsInt64(pageSize) && IsInt64(objectSize)
    ensures BoundsAgree(index, pageSize, objectSize) <==>
            || index < 0 || pageSize <= 0 || objectSize <= 0
            || (if index * pageSize <= MAX_INT64
                then index * pageSize >= objectSize || index * pageSize + pageSize - 1 <= MAX_INT64
                else Wrap64(index * pageSize) >= objectSize)
  {
    if index >= 0 && pageSize > 0 {
      assert 0 <= index * pageSize;
    }
  }

  /** Every page that a plan can name is computed exactly. */
  lemma PlannedBoundsAreExact(index: int, pageSize: int, objectSize: int)
    requires 0 < pageSize && 0 < objectSize && objectSize + pageSize <= MAX_INT64
    requires 0 <= index <= (objectSize - 1) / pageSize
    ensures PageBounds(index, pageSize, objectSize) ==
            Ok(PageSpan(index, index * pageSize, Min(index * pageSize + pageSize - 1, objectSize - 1)))
  {
    PageOfByte(objectSize - 1, pageSize);
    PageStartMonotone(index, (objectSize - 1) / pageSize, pageSize);
    PageStartIsProduct(index, pageSize);
  }

  /** A page index far outside the object can wrap onto its first page. */
  lemma HugeIndexWrapsIntoObject()
    ensures PageBounds(0x4000_0000_0000_0000, 4, 10) == Ok(PageSpan(0x4000_0000_0000_0000, 0, 3))
    ensures ExactBounds(0x4000_0000_0000_0000, 4, 10) == None
    ensures !BoundsAgree(0x4000_0000_0000_0000, 4, 10)
  {
  }
}
