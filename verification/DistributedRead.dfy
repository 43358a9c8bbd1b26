/** A read that fans out to page owners: grouping pages into one batch per owner,
    and merging the owners' frame streams back in page order. */
module DistributedRead {
  import opened RangePlan
  import opened PageStreams
  import opened PageFrames

  // ----------------------------------------------------------------- grouping

  /** The pages of one owner, in plan order. */
  function Owned(spans: seq<PageSpan>, ownerOf: int -> string, owner: string): seq<int> {
    if spans == [] then []
    else
      var rest := Owned(spans[..|spans| - 1], ownerOf, owner);
      var last := spans[|spans| - 1].index;
      if ownerOf(last) == owner then rest + [last] else rest
  }

  method GroupCoordinatorPageBatches(spans: seq<PageSpan>, ownerOf: int -> string)
        returns (batches: map<string, seq<int>>)
    ensures forall o :: o in batches ==> batches[o] == Owned(spans, ownerOf, o) != []
    ensures forall o :: o !in batches ==> Owned(spans, ownerOf, o) == []
  {
    batches := map[];
    for i := 0 to |spans|
      invariant forall o :: o in batches ==> batches[o] == Owned(spans[..i], ownerOf, o) != []
      invariant forall o :: o !in batches ==> Owned(spans[..i], ownerOf, o) == []
    {
      assert spans[..i + 1][..i] == spans[..i];
      var owner := ownerOf(spans[i].index);
      var batch := if owner in batches then batches[owner] else [];
      batches := batches[owner := batch + [spans[i].index]];
    }
    assert spans[..|spans|] == spans;
  }

  /** A page is in its owner's batch and in no other. */
  lemma {:induction false} PageInOwnersBatch(spans: seq<PageSpan>, ownerOf: int -> string, owner: string, index: int)
    ensures index in Owned(spans, ownerOf, owner) <==>
            ownerOf(index) == owner && exists i :: 0 <= i < |spans| && spans[i].index == index
    decreases |spans|
  {
    if spans != [] {
      var n := |spans| - 1;
      PageInOwnersBatch(spans[..n], ownerOf, owner, index);
      assert forall i :: 0 <= i < n ==> spans[..n][i] == spans[i];
    }
  }

  predicate StrictlyIncreasing(s: seq<int>) {
    forall i, j :: 0 <= i < j < |s| ==> s[i] < s[j]
  }

  predicate InPageOrder(spans: seq<PageSpan>) {
    forall i, j :: 0 <= i < j < |spans| ==> spans[i].index < spans[j].index
  }

  lemma {:induction false} BatchIsIncreasing(spans: seq<PageSpan>, ownerOf: int -> string, owner: string)
    requires InPageOrder(spans)
    ensures StrictlyIncreasing(Owned(spans, ownerOf, owner))
    decreases |spans|
  {
    if spans != [] {
      var n := |spans| - 1;
      BatchIsIncreasing(spans[..n], ownerOf, owner);
      var rest := Owned(spans[..n], ownerOf, owner);
      forall i | 0 <= i < |rest|
        ensures rest[i] < spans[n].index
      {
        PageInOwnersBatch(spans[..n], ownerOf, owner, rest[i]);
        assert rest[i] in rest;
        var j :| 0 <= j < n && spans[..n][j].index == rest[i];
      }
    }
  }

  /** What an owner checks before it serves a batch. */
  ghost predicate OwnerAccepts(pages: seq<int>, pageSize: int, objectSize: int, ownerOf: int -> string, self: string) {
    && objectSize > 0 && pageSize > 0 && pages != []
    && StrictlyIncreasing(pages)
    && forall i :: 0 <= i < |pages| ==> PageBounds(pages[i], pageSize, objectSize).Ok? && ownerOf(pages[i]) == self
  }

  predicate PageExists(index: int, pageSize: int, objectSize: int) {
    0 <= index && index * pageSize < objectSize
  }

  /** Where nothing wraps, an owner accepts exactly the batches of existing pages
      that it owns, each once and in order. */
  lemma OwnerAcceptsExactly(pages: seq<int>, pageSize: int, objectSize: int, ownerOf: int -> string, self: string)
    requires 0 < pageSize <= MAX_INT64 && 0 < objectSize <= MAX_INT64
    requires forall i :: 0 <= i < |pages| ==> IsInt64(pages[i]) && pages[i] * pageSize + pageSize - 1 <= MAX_INT64
    ensures OwnerAccepts(pages, pageSize, objectSize, ownerOf, self) <==>
      && pages != []
      && (forall i, j :: 0 <= i < j < |pages| ==> pages[i] < pages[j])
      && (forall i :: 0 <= i < |pages| ==> PageExists(pages[i], pageSize, objectSize) && ownerOf(pages[i]) == self)
  {
    forall i | 0 <= i < |pages|
      ensures PageBounds(pages[i], pageSize, objectSize).Ok? <==> PageExists(pages[i], pageSize, objectSize)
    {
      BoundsAgreeExactly(pages[i], pageSize, objectSize);
    }
  }

  /** Every batch of a planned read passes its owner's checks. */
  lemma BatchIsAccepted(r: ByteRange, pageSize: nat, objectSize: nat, spans: seq<PageSpan>,
        ownerOf: int -> string, owner: string)
    requires ValidRange(r) && r.end < objectSize && 0 < pageSize
    requires objectSize + pageSize <= MAX_INT64
    requires Tiles(spans, r, pageSize)
    requires Owned(spans, ownerOf, owner) != []
    ensures OwnerAccepts(Owned(spans, ownerOf, owner), pageSize, objectSize, ownerOf, owner)
  {
    BatchIsIncreasing(spans, ownerOf, owner);
    var pages := Owned(spans, ownerOf, owner);
    forall i | 0 <= i < |pages|
      ensures PageBounds(pages[i], pageSize, objectSize).Ok? && ownerOf(pages[i]) == owner
    {
      PageInOwnersBatch(spans, ownerOf, owner, pages[i]);
      assert pages[i] in pages;
      var j :| 0 <= j < |spans| && spans[j].index == pages[i];
      TileIsPlannedPage(spans, r, pageSize, j);
      PlannedPageIsInRange(pages[i], pageSize, objectSize, spans[j].end);
    }
  }

  lemma TileIsPlannedPage(spans: seq<PageSpan>, r: ByteRange, pageSize: nat, j: nat)
    requires Tiles(spans, r, pageSize)
    requires j < |spans|
    ensures InsidePage(spans[j], pageSize) && spans[j].end <= r.end
  {
    TileStart(spans, r, pageSize, j);
    TileEnd(spans, r, pageSize, j, |spans| - 1);
  }

  lemma PlannedPageIsInRange(index: nat, pageSize: nat, objectSize: nat, x: nat)
    requires 0 < pageSize && objectSize + pageSize <= MAX_INT64
    requires PageStart(index, pageSize) <= x < objectSize
    ensures PageBounds(index, pageSize, objectSize).Ok?
  {
    PageStartIsProduct(index, pageSize);
  }

  // ----------------------------------------------------------------- streaming

  /** One owner's response: the unread bytes and how many pages were read. */
  datatype Remote = Remote(rest: seq<byte>, expected: seq<nat>, next: nat)

  /** The node that merges: who owns a page, its own name, and what serving one of
      its own spans gives, which may fail like any other. */
  datatype Coordinator = Coordinator(ownerOf: int -> string, local: string, own: PageSpan -> Copied, pageSize: nat)

  datatype Outcome = Failed(sent: seq<byte>) | Done(sent: seq<byte>, remotes: map<string, Remote>)

  ghost predicate RemotesOk(remotes: map<string, Remote>) {
    forall o :: o in remotes ==> remotes[o].next <= |remotes[o].expected|
  }

  /** Serve one span from its owner's stream: next frame, copy, close. */
  function ServeRemote(remote: Remote, span: PageSpan, pageSize: nat): (Copied, Remote)
    requires remote.next <= |remote.expected|
    requires 0 <= span.index
  {
    match NextFrame(remote.rest, remote.expected, remote.next, pageSize)
    case Page(index, size) =>
      if index != span.index then (Copied([], false), remote)
      else
        var rest := remote.rest[17..];
        var remote' := remote.(rest := AfterBody(rest, size), next := remote.next + 1);
        (CopyPageSpan(Body(rest, size), span, pageSize), remote')
    case _ => (Copied([], false), remote)
  }

  ghost predicate Indexed(spans: seq<PageSpan>) {
    forall i :: 0 <= i < |spans| ==> 0 <= spans[i].index
  }

  /** The coordinator serves its own spans from this body. */
  ghost predicate ServesOwn(c: Coordinator, spans: seq<PageSpan>, body: seq<byte>) {
    forall i :: 0 <= i < |spans| && c.ownerOf(spans[i].index) == c.local ==>
      c.own(spans[i]) == Copied(SpanBytes(body, spans[i]), true)
  }

  /** Every span lies in its page and in the object. */
  ghost predicate Servable(spans: seq<PageSpan>, pageSize: nat, size: nat) {
    forall i :: 0 <= i < |spans| ==> InsidePage(spans[i], pageSize) && spans[i].end < size
  }

  /** The whole merge, span by span; `local` pages come from the own cache. At the
      end every stream must stand at its end marker. */
  ghost function Stream(spans: seq<PageSpan>, remotes: map<string, Remote>, c: Coordinator): Outcome
    requires RemotesOk(remotes) && Indexed(spans)
    decreases |spans|
  {
    if spans == [] then
      if forall o :: o in remotes ==> AtEnd(remotes[o], c.pageSize) then Done([], remotes) else Failed([])
    else
      var span, owner := spans[0], c.ownerOf(spans[0].index);
      if owner == c.local then
        var copied := c.own(span);
        if !copied.complete then Failed(copied.bytes)
        else Prepend(copied.bytes, Stream(spans[1..], remotes, c))
      else if owner !in remotes then Failed([])
      else
        var (copied, remote) := ServeRemote(remotes[owner], span, c.pageSize);
        if !copied.complete then Failed(copied.bytes)
        else Prepend(copied.bytes, Stream(spans[1..], remotes[owner := remote], c))
  }

  predicate AtEnd(remote: Remote, pageSize: nat)
    requires remote.next <= |remote.expected|
  {
    NextFrame(remote.rest, remote.expected, remote.next, pageSize) == Eof
  }

  function Prepend(bytes: seq<byte>, o: Outcome): Outcome {
    o.(sent := bytes + o.sent)
  }

  // --------------------------------------------------------- honest owners

  function PageFrame(body: seq<byte>, pageSize: nat, index: nat): Frame
    requires PageStart(index, pageSize) < |body|
  {
    Frame(index, PageBytes(body, pageSize, index))
  }

  ghost predicate PagesExist(pages: seq<int>, body: seq<byte>, pageSize: nat) {
    forall i :: 0 <= i < |pages| ==> 0 <= pages[i] <= MAX_INT64 && PageStart(pages[i], pageSize) < |body|
  }

  /** What an owner sends for its batch. */
  ghost function Response(pages: seq<int>, body: seq<byte>, pageSize: nat): (frames: seq<Frame>)
    requires PagesExist(pages, body, pageSize)
    ensures |frames| == |pages|
    ensures forall i :: 0 <= i < |frames| ==> frames[i] == PageFrame(body, pageSize, pages[i])
  {
    seq(|pages|, i requires 0 <= i < |pages| => PageFrame(body, pageSize, pages[i]))
  }

  /** Between two spans: each stream still holds exactly its owner's pages among
      the spans to come. */
  ghost predicate Ready(spans: seq<PageSpan>, remotes: map<string, Remote>, c: Coordinator, body: seq<byte>) {
    && RemotesOk(remotes)
    && c.local !in remotes
    && (forall i :: 0 <= i < |spans| ==> c.ownerOf(spans[i].index) == c.local || c.ownerOf(spans[i].index) in remotes)
    && forall o :: o in remotes ==> RemoteReady(remotes[o], OwnedFrom(spans, c.ownerOf, o), body, c.pageSize)
  }

  /** The same selection, counted from the front. */
  function OwnedFrom(spans: seq<PageSpan>, ownerOf: int -> string, owner: string): seq<int> {
    if spans == [] then []
    else
      var rest := OwnedFrom(spans[1..], ownerOf, owner);
      if ownerOf(spans[0].index) == owner then [spans[0].index] + rest else rest
  }

  lemma {:induction false} OwnedIsOwnedFrom(spans: seq<PageSpan>, ownerOf: int -> string, owner: string)
    ensures OwnedFrom(spans, ownerOf, owner) == Owned(spans, ownerOf, owner)
    decreases |spans|
  {
    if |spans| == 1 {
      assert spans[1..] == [] && spans[..0] == [];
    } else if |spans| > 1 {
      var n := |spans| - 1;
      OwnedIsOwnedFrom(spans[1..], ownerOf, owner);
      OwnedIsOwnedFrom(spans[..n], ownerOf, owner);
      OwnedIsOwnedFrom(spans[1..n], ownerOf, owner);
      assert spans[1..][..n - 1] == spans[1..n] == spans[..n][1..];
      assert spans[1..][n - 1] == spans[n];
    }
  }

  ghost predicate RemoteReady(remote: Remote, pages: seq<int>, body: seq<byte>, pageSize: nat) {
    && remote.next <= |remote.expected|
    && Increasing(remote.expected)
    && remote.expected[remote.next..] == pages
    && PagesExist(pages, body, pageSize)
    && remote.rest == EncodeBody(Response(pages, body, pageSize))
  }

  lemma ServeHonestRemote(remote: Remote, pages: seq<int>, span: PageSpan, body: seq<byte>, pageSize: nat)
    requires RemoteReady(remote, [span.index] + pages, body, pageSize)
    requires pageSize <= MAX_INT64
    requires InsidePage(span, pageSize) && span.end < |body|
    ensures
      var (copied, remote') := ServeRemote(remote, span, pageSize);
      && copied == Copied(body[span.start..span.end + 1], true)
      && RemoteReady(remote', pages, body, pageSize)
  {
    var all := [span.index] + pages;
    var frames := Response(all, body, pageSize);
    assert forall i :: 0 <= i < |pages| ==> pages[i] == all[i + 1];
    var f, rest := frames[0], EncodeBody(Response(pages, body, pageSize));
    assert frames[1..] == Response(pages, body, pageSize);
    assert EncodeBody(frames) == EncodePage(f) + rest;
    assert remote.expected[remote.next] == all[0];
    FrameAccepted(f, rest, remote.expected, remote.next, pageSize);
    assert Body(f.data + rest, |f.data|) == f.data;
    assert AfterBody(f.data + rest, |f.data|) == rest;
    assert remote.expected[remote.next + 1..] == remote.expected[remote.next..][1..] == pages;
    SpanOfPage(body, span, pageSize);
  }

  predicate Contiguous(spans: seq<PageSpan>) {
    forall i {:trigger spans[i].end} :: 0 <= i < |spans| - 1 ==> spans[i].end + 1 == spans[i + 1].start
  }

  /** What contiguous spans select. */
  function Extent(body: seq<byte>, spans: seq<PageSpan>): seq<byte> {
    if spans == [] || !(0 <= spans[0].start <= spans[|spans| - 1].end < |body|) then []
    else body[spans[0].start..spans[|spans| - 1].end + 1]
  }

  lemma RestOfSpans(spans: seq<PageSpan>, pageSize: nat, size: nat)
    requires spans != [] && Contiguous(spans) && Servable(spans, pageSize, size)
    ensures Contiguous(spans[1..]) && Servable(spans[1..], pageSize, size)
    ensures |spans| > 1 ==> spans[0].end + 1 == spans[1].start <= spans[|spans| - 1].end < size
  {
    var rest := spans[1..];
    forall i | 0 <= i < |rest| - 1
      ensures rest[i].end + 1 == rest[i + 1].start
    {
      assert spans[i + 1].end + 1 == spans[i + 2].start;
    }
    if |spans| > 1 {
      assert spans[0].end + 1 == spans[1].start;
      LastIsLast(rest, 0);
    }
  }

  lemma ExtentStep(body: seq<byte>, spans: seq<PageSpan>, pageSize: nat)
    requires spans != [] && Contiguous(spans) && Servable(spans, pageSize, |body|)
    ensures Contiguous(spans[1..]) && Servable(spans[1..], pageSize, |body|)
    ensures 0 <= spans[0].start <= spans[0].end < |body|
    ensures Extent(body, spans) == body[spans[0].start..spans[0].end + 1] + Extent(body, spans[1..])
  {
    RestOfSpans(spans, pageSize, |body|);
    assert InsidePage(spans[0], pageSize);
    if |spans| > 1 {
      Concat(body, spans[0].start, spans[1].start, spans[|spans| - 1].end + 1);
      assert Extent(body, spans[1..]) == body[spans[1].start..spans[|spans| - 1].end + 1];
    } else {
      assert Extent(body, spans[1..]) == [];
    }
  }

  lemma {:induction false} LastIsLast(spans: seq<PageSpan>, i: nat)
    requires Contiguous(spans) && i < |spans|
    requires forall j :: 0 <= j < |spans| ==> spans[j].start <= spans[j].end
    ensures spans[i].start <= spans[|spans| - 1].end
    decreases |spans| - i
  {
    if i < |spans| - 1 {
      LastIsLast(spans, i + 1);
      assert spans[i].end + 1 == spans[i + 1].start;
    }
  }

  ghost predicate AllAtEnd(remotes: map<string, Remote>) {
    forall o :: o in remotes ==> remotes[o].rest == [TYPE_END]
  }

  /** With honest owners the merge is the local read: it sends the selected bytes
      in order and leaves every stream at its end marker. */
  lemma {:induction false} HonestStream(spans: seq<PageSpan>, remotes: map<string, Remote>, c: Coordinator,
        body: seq<byte>)
    requires c.pageSize <= MAX_INT64
    requires Servable(spans, c.pageSize, |body|) && Contiguous(spans) && ServesOwn(c, spans, body)
    requires Ready(spans, remotes, c, body)
    ensures
      var o := Stream(spans, remotes, c);
      o.Done? && o.sent == Extent(body, spans) && AllAtEnd(o.remotes)
    decreases |spans|
  {
    if spans == [] {
      forall o | o in remotes
        ensures AtEnd(remotes[o], c.pageSize) && remotes[o].rest == [TYPE_END]
      {
        assert RemoteReady(remotes[o], [], body, c.pageSize);
      }
    } else {
      var span, owner := spans[0], c.ownerOf(spans[0].index);
      ExtentStep(body, spans, c.pageSize);
      var remotes' := if owner == c.local then remotes
          else remotes[owner := ServeRemote(remotes[owner], span, c.pageSize).1];
      HonestStep(spans, remotes, remotes', c, body);
      HonestStream(spans[1..], remotes', c, body);
    }
  }

  /** One step of the merge with honest owners. */
  lemma HonestStep(spans: seq<PageSpan>, remotes: map<string, Remote>, remotes': map<string, Remote>,
        c: Coordinator, body: seq<byte>)
    requires c.pageSize <= MAX_INT64 && spans != []
    requires Servable(spans, c.pageSize, |body|) && Servable(spans[1..], c.pageSize, |body|)
        && ServesOwn(c, spans, body)
    requires Ready(spans, remotes, c, body)
    requires
      var owner := c.ownerOf(spans[0].index);
      remotes' == if owner == c.local then remotes
          else remotes[owner := ServeRemote(remotes[owner], spans[0], c.pageSize).1]
    ensures Ready(spans[1..], remotes', c, body)
    ensures
      Stream(spans, remotes, c) ==
      Prepend(body[spans[0].start..spans[0].end + 1], Stream(spans[1..], remotes', c))
  {
    var mine := body[spans[0].start..spans[0].end + 1];
    var rest := Stream(spans[1..], remotes, c);
    if c.ownerOf(spans[0].index) == c.local {
      ReadyAfterLocal(spans, remotes, c, body);
      assert Stream(spans, remotes, c) == Prepend(mine, rest);
    } else {
      ReadyAfterRemote(spans, remotes, c, body);
      rest := Stream(spans[1..], remotes', c);
      assert Stream(spans, remotes, c) == Prepend(mine, rest);
    }
  }

  lemma ReadyAfterLocal(spans: seq<PageSpan>, remotes: map<string, Remote>, c: Coordinator, body: seq<byte>)
    requires spans != []
    requires Ready(spans, remotes, c, body)
    requires c.ownerOf(spans[0].index) == c.local
    ensures Ready(spans[1..], remotes, c, body)
  {
  }

  lemma ReadyAfterRemote(spans: seq<PageSpan>, remotes: map<string, Remote>, c: Coordinator, body: seq<byte>)
    requires spans != [] && c.pageSize <= MAX_INT64
    requires InsidePage(spans[0], c.pageSize) && spans[0].end < |body|
    requires Ready(spans, remotes, c, body)
    requires c.ownerOf(spans[0].index) in remotes
    ensures
      var owner := c.ownerOf(spans[0].index);
      var (copied, remote') := ServeRemote(remotes[owner], spans[0], c.pageSize);
      && copied == Copied(body[spans[0].start..spans[0].end + 1], true)
      && Ready(spans[1..], remotes[owner := remote'], c, body)
  {
    RemoteServes(spans, remotes, c, body);
    var owner := c.ownerOf(spans[0].index);
    OthersStayReady(spans, remotes, ServeRemote(remotes[owner], spans[0], c.pageSize).1, c, body);
  }

  lemma RemoteServes(spans: seq<PageSpan>, remotes: map<string, Remote>, c: Coordinator, body: seq<byte>)
    requires spans != [] && c.pageSize <= MAX_INT64
    requires InsidePage(spans[0], c.pageSize) && spans[0].end < |body|
    requires Ready(spans, remotes, c, body)
    requires c.ownerOf(spans[0].index) in remotes
    ensures
      var owner := c.ownerOf(spans[0].index);
      var (copied, remote') := ServeRemote(remotes[owner], spans[0], c.pageSize);
      && copied == Copied(body[spans[0].start..spans[0].end + 1], true)
      && RemoteReady(remote', OwnedFrom(spans[1..], c.ownerOf, owner), body, c.pageSize)
  {
    var owner := c.ownerOf(spans[0].index);
    var pages := OwnedFrom(spans[1..], c.ownerOf, owner);
    assert OwnedFrom(spans, c.ownerOf, owner) == [spans[0].index] + pages;
    assert RemoteReady(remotes[owner], [spans[0].index] + pages, body, c.pageSize);
    ServeHonestRemote(remotes[owner], pages, spans[0], body, c.pageSize);
  }

  lemma OthersStayReady(spans: seq<PageSpan>, remotes: map<string, Remote>, remote: Remote, c: Coordinator,
        body: seq<byte>)
    requires spans != []
    requires Ready(spans, remotes, c, body)
    requires c.ownerOf(spans[0].index) in remotes
    requires RemoteReady(remote, OwnedFrom(spans[1..], c.ownerOf, c.ownerOf(spans[0].index)), body, c.pageSize)
    ensures Ready(spans[1..], remotes[c.ownerOf(spans[0].index) := remote], c, body)
  {
    var owner := c.ownerOf(spans[0].index);
    var remotes' := remotes[owner := remote];
    forall o | o in remotes'
      ensures RemoteReady(remotes'[o], OwnedFrom(spans[1..], c.ownerOf, o), body, c.pageSize)
    {
      assert o == owner || RemoteReady(remotes[o], OwnedFrom(spans, c.ownerOf, o), body, c.pageSize);
    }
  }

  /** Pages of the object in its own cache are what the coordinator serves from. */
  lemma OwnPagesServe(c: Coordinator, spans: seq<PageSpan>, body: seq<byte>)
    requires Servable(spans, c.pageSize, |body|)
    requires forall i :: 0 <= i < |spans| && c.ownerOf(spans[i].index) == c.local ==>
      c.own(spans[i]) == CopyPageSpan(PageBytes(body, c.pageSize, spans[i].index), spans[i], c.pageSize)
    ensures ServesOwn(c, spans, body)
  {
    forall i | 0 <= i < |spans| && c.ownerOf(spans[i].index) == c.local
      ensures c.own(spans[i]) == Copied(SpanBytes(body, spans[i]), true)
    {
      SpanOfPage(body, spans[i], c.pageSize);
    }
  }

  /** The streams that honest owners open for the batches of a plan. */
  ghost predicate HonestlyOpened(spans: seq<PageSpan>, remotes: map<string, Remote>, c: Coordinator, body: seq<byte>) {
    && c.local !in remotes
    && (forall i :: 0 <= i < |spans| ==> c.ownerOf(spans[i].index) == c.local || c.ownerOf(spans[i].index) in remotes)
    && forall o :: o in remotes ==>
         var pages := Owned(spans, c.ownerOf, o);
         PagesExist(pages, body, c.pageSize)
             && remotes[o] == Remote(EncodeBody(Response(pages, body, c.pageSize)), pages, 0)
  }

  /** A distributed read of a planned range sends exactly what a local read
      sends, and finds every owner's stream complete. */
  lemma DistributedReadIsLocalRead(r: ByteRange, spans: seq<PageSpan>, remotes: map<string, Remote>,
        c: Coordinator, body: seq<byte>)
    requires ValidRange(r) && r.end < |body| && 0 < c.pageSize <= MAX_INT64
    requires Tiles(spans, r, c.pageSize)
    requires HonestlyOpened(spans, remotes, c, body) && ServesOwn(c, spans, body)
    ensures RemotesOk(remotes) && Indexed(spans)
    ensures
      var o := Stream(spans, remotes, c);
      o.Done? && o.sent == body[r.start..r.end + 1] && AllAtEnd(o.remotes)
  {
    forall i | 0 <= i < |spans|
      ensures InsidePage(spans[i], c.pageSize) && spans[i].end < |body|
    {
      TileIsPlannedPage(spans, r, c.pageSize, i);
    }
    forall o | o in remotes
      ensures RemoteReady(remotes[o], OwnedFrom(spans, c.ownerOf, o), body, c.pageSize)
    {
      OwnedIsOwnedFrom(spans, c.ownerOf, o);
      BatchIsIncreasing(spans, c.ownerOf, o);
      assert remotes[o].expected[0..] == remotes[o].expected;
    }
    HonestStream(spans, remotes, c, body);
  }

  // ------------------------------------------------------------ broken streams

  /** When the merge succeeds, each stream on its own reads to a clean end. */
  lemma {:induction false} SuccessReadsEveryStream(spans: seq<PageSpan>, remotes: map<string, Remote>,
        c: Coordinator, o: string)
    requires RemotesOk(remotes) && Indexed(spans)
    requires Stream(spans, remotes, c).Done?
    requires o in remotes
    ensures Consume(remotes[o].rest, remotes[o].expected, remotes[o].next, c.pageSize, []).end == Eof
    decreases |spans|
  {
    if spans != [] {
      var owner := c.ownerOf(spans[0].index);
      if owner == c.local {
        SuccessReadsEveryStream(spans[1..], remotes, c, o);
      } else {
        var remote' := ServeRemote(remotes[owner], spans[0], c.pageSize).1;
        SuccessReadsEveryStream(spans[1..], remotes[owner := remote'], c, o);
      }
    }
  }

  /** The data of the frame with this index. */
  function DataOf(frames: seq<Frame>, index: int): seq<byte> {
    if frames == [] then []
    else if frames[0].index == index then frames[0].data
    else DataOf(frames[1..], index)
  }

  /** One span out of its own page, or out of the frame its owner sent for it. */
  ghost function SpanFrom(span: PageSpan, remotes: map<string, Remote>, c: Coordinator): Copied
    requires RemotesOk(remotes) && 0 <= span.index
  {
    var owner := c.ownerOf(span.index);
    if owner == c.local then c.own(span)
    else if owner !in remotes then Copied([], false)
    else CopyPageSpan(DataOf(Frames(remotes[owner], c.pageSize), span.index), span, c.pageSize)
  }

  function Frames(remote: Remote, pageSize: nat): seq<Frame>
    requires remote.next <= |remote.expected|
  {
    FramesOf(remote.rest, remote.expected, remote.next, pageSize)
  }

  ghost function Assemble(spans: seq<PageSpan>, remotes: map<string, Remote>, c: Coordinator): seq<byte>
    requires RemotesOk(remotes) && Indexed(spans)
    decreases |spans|
  {
    if spans == [] then [] else SpanFrom(spans[0], remotes, c).bytes + Assemble(spans[1..], remotes, c)
  }

  /** Serving a span takes the first frame off its owner's stream. */
  lemma ServedFrame(remote: Remote, span: PageSpan, pageSize: nat)
    requires remote.next <= |remote.expected| && 0 <= span.index
    requires ServeRemote(remote, span, pageSize).0.complete
    ensures
      var (copied, remote') := ServeRemote(remote, span, pageSize);
      && remote'.next <= |remote'.expected|
      && Frames(remote, pageSize) != [] && Frames(remote, pageSize)[0].index == span.index
      && Frames(remote, pageSize)[1..] == Frames(remote', pageSize)
      && copied == CopyPageSpan(DataOf(Frames(remote, pageSize), span.index), span, pageSize)
  {
  }

  /** Which does not matter to the spans of later pages. */
  lemma {:induction false} AssembleLater(spans: seq<PageSpan>, remotes: map<string, Remote>, c: Coordinator,
        owner: string, remote: Remote, index: int)
    requires RemotesOk(remotes) && Indexed(spans)
    requires owner in remotes && remote.next <= |remote.expected|
    requires Frames(remotes[owner], c.pageSize) != [] && Frames(remotes[owner], c.pageSize)[0].index == index
    requires Frames(remotes[owner], c.pageSize)[1..] == Frames(remote, c.pageSize)
    requires forall i :: 0 <= i < |spans| ==> spans[i].index != index
    ensures RemotesOk(remotes[owner := remote])
    ensures Assemble(spans, remotes[owner := remote], c) == Assemble(spans, remotes, c)
    ensures forall i :: 0 <= i < |spans| ==>
      SpanFrom(spans[i], remotes[owner := remote], c) == SpanFrom(spans[i], remotes, c)
    decreases |spans|
  {
    if spans != [] {
      AssembleLater(spans[1..], remotes, c, owner, remote, index);
      assert SpanFrom(spans[0], remotes[owner := remote], c) == SpanFrom(spans[0], remotes, c);
      assert forall i :: 0 < i < |spans| ==> spans[i] == spans[1..][i - 1];
    }
  }

  /** Whatever bytes the owners send: when the merge succeeds, each span was copied
      whole out of the frame that its owner sent for its page, and these copies in
      page order are what was sent. */
  lemma {:induction false} SuccessSendsFrames(spans: seq<PageSpan>, remotes: map<string, Remote>, c: Coordinator)
    requires RemotesOk(remotes) && Indexed(spans) && InPageOrder(spans)
    requires Stream(spans, remotes, c).Done?
    ensures Stream(spans, remotes, c).sent == Assemble(spans, remotes, c)
    ensures forall i :: 0 <= i < |spans| ==> SpanFrom(spans[i], remotes, c).complete
    decreases |spans|
  {
    if spans != [] {
      var owner := c.ownerOf(spans[0].index);
      assert forall i :: 0 < i < |spans| ==> spans[i] == spans[1..][i - 1];
      if owner == c.local {
        SuccessSendsFrames(spans[1..], remotes, c);
      } else {
        var remote' := ServeRemote(remotes[owner], spans[0], c.pageSize).1;
        ServedFrame(remotes[owner], spans[0], c.pageSize);
        SuccessSendsFrames(spans[1..], remotes[owner := remote'], c);
        AssembleLater(spans[1..], remotes, c, owner, remote', spans[0].index);
      }
    }
  }

  /** And those frames are all that the streams hold: one for each page that was
      asked of the owner, in order, and then the end marker. */
  lemma SuccessReadsWholeFrames(spans: seq<PageSpan>, remotes: map<string, Remote>, c: Coordinator, o: string)
    requires RemotesOk(remotes) && Indexed(spans)
    requires Stream(spans, remotes, c).Done?
    requires o in remotes
    ensures Indexes(Frames(remotes[o], c.pageSize)) == remotes[o].expected[remotes[o].next..]
    ensures EncodeBody(Frames(remotes[o], c.pageSize)) <= remotes[o].rest
  {
    SuccessReadsEveryStream(spans, remotes, c, o);
    var frames := OnlyEncodingsRead(remotes[o].rest, remotes[o].expected, remotes[o].next, c.pageSize, []);
  }

  /** A response that was cut short anywhere is never taken for a whole one. */
  lemma TruncationIsNoticed(spans: seq<PageSpan>, remotes: map<string, Remote>, c: Coordinator, o: string,
        frames: seq<Frame>)
    requires RemotesOk(remotes) && Indexed(spans)
    requires o in remotes && remotes[o].next == 0
    requires Sendable(frames, c.pageSize) && c.pageSize <= MAX_INT64
    requires remotes[o].expected == Indexes(frames)
    requires remotes[o].rest < EncodeBody(frames)
    ensures Stream(spans, remotes, c).Failed?
  {
    NoStrictPrefixEndsCleanly(frames, remotes[o].rest, c.pageSize, []);
    if Stream(spans, remotes, c).Done? {
      SuccessReadsEveryStream(spans, remotes, c, o);
    }
  }

  // ------------------------------------------------------------------- the loop

  /** The coordinator's loop computes the merge. */
  method StreamCoordinatorPageSpans(spans: seq<PageSpan>, batches: map<string, Remote>, c: Coordinator)
    returns (sent: seq<byte>, ok: bool)
    requires RemotesOk(batches) && Indexed(spans)
    ensures ok <==> Stream(spans, batches, c).Done?
    ensures sent == Stream(spans, batches, c).sent
  {
    var remotes, todo := batches, spans;
    sent := [];
    PrependNothing(Stream(spans, batches, c));
    while |todo| > 0
      invariant RemotesOk(remotes) && Indexed(todo)
      invariant Stream(spans, batches, c) ==
                Prepend(sent, Stream(todo, remotes, c))
      decreases |todo|
    {
      var page, owner := todo[0], c.ownerOf(todo[0].index);
      ghost var whole := Stream(todo, remotes, c);
      if owner == c.local {
        var copied := c.own(page);
        if !copied.complete {
          assert whole == Failed(copied.bytes);
          return sent + copied.bytes, false;
        }
        PrependTwice(sent, copied.bytes, Stream(todo[1..], remotes, c));
        sent, todo := sent + copied.bytes, todo[1..];
      } else {
        if owner !in remotes {
          assert whole == Failed([]);
          return sent, false;
        }
        var (copied, remote) := ServeRemote(remotes[owner], page, c.pageSize);
        if !copied.complete {
          assert whole == Failed(copied.bytes);
          return sent + copied.bytes, false;
        }
        PrependTwice(sent, copied.bytes, Stream(todo[1..], remotes[owner := remote], c));
        sent, todo, remotes := sent + copied.bytes, todo[1..], remotes[owner := remote];
      }
    }
    ok := forall o :: o in remotes ==> AtEnd(remotes[o], c.pageSize);
  }

  lemma PrependNothing(o: Outcome)
    ensures Prepend([], o) == o
  {
  }

  lemma PrependTwice(a: seq<byte>, b: seq<byte>, o: Outcome)
    ensures Prepend(a, Prepend(b, o)) == Prepend(a + b, o)
  {
  }
}
