/** The invariant of the pager, and its preservation by every event. */
module PagerInvariant {
  import opened Sequences
  import opened ArrayPaging
  import opened PagingBlock
  import opened PagerMachine

  // ---------- Pages of a list ----------

  /** Every page but the last is full, and the last one holds the remainder or a full page. */
  lemma PageBoundaries(length: nat, size: nat)
    requires size > 0
    ensures var pages := NumPages(length, size);
            && (pages == 0 <==> length == 0)
            && length <= Offset(pages, size)
            && (pages > 0 ==> length - Offset(pages - 1, size) == if length % size == 0 then size else length % size)
  {
    var pages := NumPages(length, size);
    var q, r := length / size, length % size;
    assert length == q * size + r;
    OffsetIsProduct(q, size);
    if r == 0 {
      QuotientIs(length + size - 1, q, size - 1, size);
    } else {
      QuotientIs(length + size - 1, q + 1, r - 1, size);
    }
  }

  lemma QuotientIs(a: nat, q: nat, r: nat, d: nat)
    requires d > 0 && r < d
    requires a == Offset(q, d) + r || a == Offset(q - 1, d) + d + r
    requires q == 0 ==> a == r
    ensures a / d == q
  {
    var q' := a / d;
    OffsetIsProduct(q', d);
    assert a == q' * d + a % d;
    OffsetStrict(q', q, d);
    OffsetStrict(q, q', d);
  }

  lemma OffsetStrict(a: int, b: int, size: nat)
    ensures 0 <= a < b ==> Offset(a, size) + size <= Offset(b, size)
  {
    if 0 <= a < b {
      OffsetMonotone(a + 1, b, size);
    }
  }

  // ---------- The invariant ----------

  function Pages<T>(props: Props<T>): nat {
    NumPages(|props.list|, props.Size())
  }

  /** How many page slots there are: an empty list still has its page 0. */
  function Slots<T>(props: Props<T>): nat {
    Max(Pages(props), 1)
  }

  /** How many entries so many pages from one end cover. */
  function CoveredBy<T>(props: Props<T>, increment: int, loaded: nat): int {
    var n := |props.list|;
    if increment == 1 then Min(Offset(loaded, props.Size()), n)
    else if loaded == 0 then 0
    else n - Offset(Pages(props) - loaded, props.Size())
  }

  /** How many entries the cached pages cover. */
  function Consumed<T>(props: Props<T>, st: State<T>): int {
    CoveredBy(props, st.increment, |st.pageData|)
  }

  /** The cached indices are a prefix of the pages when paging forwards and a suffix when paging backwards. */
  ghost predicate Contiguous<T>(props: Props<T>, st: State<T>) {
    if st.increment == 1 then
      |st.pageData| <= Slots(props) && forall i :: i in st.pageData <==> 0 <= i < |st.pageData|
    else
      && st.increment == -1
      && Pages(props) > 1
      && |st.pageData| <= Pages(props)
      && forall i :: i in st.pageData <==> Pages(props) - |st.pageData| <= i < Pages(props)
  }

  /** The entries between two page boundaries. */
  function PageSlice<T>(entries: seq<T>, index: nat, size: nat): seq<T> {
    OffsetMonotone(index, index + 1, size);
    entries[Min(Offset(index, size), |entries|)..Min(Offset(index + 1, size), |entries|)]
  }

  lemma PageSliceIs<T>(entries: seq<T>, index: nat, size: nat, lo: int, hi: int)
    requires lo == Min(Offset(index, size), |entries|) && hi == Min(Offset(index + 1, size), |entries|)
    ensures 0 <= lo <= hi <= |entries| && PageSlice(entries, index, size) == entries[lo..hi]
  {
    OffsetMonotone(index, index + 1, size);
  }

  /** Every cached page is the slice of the displayed list between its boundaries. */
  ghost predicate CacheAgrees<T>(props: Props<T>, st: State<T>) {
    forall i :: i in st.pageData ==>
      0 <= i && st.pageData[i] == PageSlice(Displayed(props, st.sortAscending), i, props.Size())
  }

  /**
   Once the page count is known, the count, the result count and the frontier are the right ones; the selected
   page may be any.
   */
  predicate Counted<T>(props: Props<T>, st: State<T>) {
    && st.numPages == Pages(props)
    && st.numResults == Some(|props.list|)
    && st.farthestPage == Some(CalculateFarthestPage(st.page, st.numPages, st.increment))
  }

  predicate FreshlyReset<T>(st: State<T>) {
    st.increment == 1 && st.numPages == 0
  }

  /** The marker sits on the boundary of the cached block, and paging goes on exactly while a page is missing. */
  predicate OnBoundary<T>(props: Props<T>, st: State<T>) {
    && (st.isPaging <==> |st.pageData| < Slots(props))
    && (st.isPaging ==> ResumesAt(NextRequest(props, st).paging, GetPageWithBefore(st), Consumed(props, st),
         |props.list|))
  }

  function NextRequest<T>(props: Props<T>, st: State<T>): Request {
    FillPage(props, st, PageToFill(st))
  }

  ghost predicate ComponentInv<T>(props: Props<T>, st: State<T>) {
    && Contiguous(props, st)
    && CacheAgrees(props, st)
    && OnBoundary(props, st)
    && (|st.pageData| > 0 ==> Counted(props, st))
    && (|st.pageData| == 0 ==> FreshlyReset(st) || (Counted(props, st) && Pages(props) > 1))
    && (|st.pageData| == 0 ==> st.before == Null && st.after == Null)
  }

  /**
   Every request ever sent asks for a page that exists, in the direction its marker has;
   one with the current nonce is for a cached page, or it is the next request itself.
   */
  predicate Expected<T>(props: Props<T>, st: State<T>, r: Request) {
    && 0 <= r.index < Slots(props)
    && r.nonce <= st.pagingNonce
    && 0 < r.limit <= props.Size()
    && (r.ascending <==> r.paging.after != Undefined)
    && (r.nonce == st.pagingNonce ==> r.index in st.pageData || (st.isPaging && r == NextRequest(props, st)))
  }

  ghost predicate NetworkInv<T>(props: Props<T>, sys: System<T>) {
    forall r :: r in sys.network ==> Expected(props, sys.component, r)
  }

  /**
   The pager never stalls: while it has nothing, or wants another page, the request for the next page is
   outstanding.
   */
  predicate Progress<T>(props: Props<T>, sys: System<T>) {
    var st := sys.component;
    sys.mounted && st.isPaging && (|st.pageData| == 0 || WantsMore(st)) ==> NextRequest(props, st) in sys.network
  }

  ghost predicate Inv<T>(props: Props<T>, sys: System<T>) {
    ComponentInv(props, sys.component) && NetworkInv(props, sys) && Progress(props, sys)
  }

  // ---------- Kicking ----------

  /** The next request is for the page that extends the cached block, and pages with `after` exactly when ascending. */
  lemma NextRequestExpected<T>(props: Props<T>, st: State<T>)
    requires ComponentInv(props, st) && st.isPaging
    ensures Expected(props, st, NextRequest(props, st))
    ensures NextRequest(props, st).index !in st.pageData
  {
  }

  lemma KickKeepsInv<T>(props: Props<T>, sys: System<T>)
    requires ComponentInv(props, sys.component) && NetworkInv(props, sys)
    requires sys.mounted && |sys.component.pageData| == 0 ==>
               WantsMore(sys.component) || NextRequest(props, sys.component) in sys.network
    ensures Inv(props, Kick(props, sys, sys.component.pagingNonce))
  {
    if sys.component.isPaging {
      NextRequestExpected(props, sys.component);
    }
  }

  /**
   A reset component meets the invariant: forwards with nothing known, or in either direction with the counts
   kept.
   */
  lemma EmptyCacheInv<T>(props: Props<T>, st: State<T>)
    requires st.pageData == map[] && st.isPaging && st.before == Null && st.after == Null
    requires FreshlyReset(st) || (Counted(props, st) && Pages(props) > 1 && (st.increment == 1 || st.increment == -1))
    ensures ComponentInv(props, st)
  {
  }

  /** A new nonce makes every outstanding request stale. */
  lemma ResetKeepsInv<T>(props: Props<T>, sys: System<T>, st: State<T>)
    requires NetworkInv(props, sys)
    requires ComponentInv(props, st) && st.pagingNonce == sys.component.pagingNonce + 1 && WantsMore(st)
    ensures Inv(props, Kick(props, sys.(component := st), st.pagingNonce))
  {
    KickKeepsInv(props, sys.(component := st));
  }

  // ---------- Receiving a page ----------

  /** Forwards, the window after `loaded` pages is page `loaded`. */
  lemma ForwardWindow(length: nat, size: nat, loaded: nat)
    requires size > 0 && loaded < Max(NumPages(length, size), 1)
    ensures Min(Min(Offset(loaded, size), length) + size, length) == Min(Offset(loaded + 1, size), length)
    ensures Min(Offset(loaded + 1, size), length) < length <==> loaded + 1 < Max(NumPages(length, size), 1)
  {
    var pages := NumPages(length, size);
    PageBoundaries(length, size);
    if pages > 0 {
      OffsetMonotone(loaded, pages - 1, size);
    }
    if loaded + 1 < pages {
      OffsetMonotone(loaded + 1, pages - 1, size);
    }
  }

  /** Backwards, the first window is the short last page, and the next ones are full pages counted from the end. */
  lemma BackwardWindow(length: nat, size: nat, loaded: nat)
    requires size > 0 && loaded < NumPages(length, size)
    ensures var index := NumPages(length, size) - 1 - loaded;
            var consumed := if loaded == 0 then 0 else length - Offset(index + 1, size);
            var limit := if loaded == 0 && length % size != 0 then length % size else size;
            && 0 <= consumed && consumed + limit <= length
            && Offset(index, size) == length - (consumed + limit)
            && Min(Offset(index + 1, size), length) == length - consumed
            && (consumed + limit < length <==> loaded + 1 < NumPages(length, size))
  {
    var pages := NumPages(length, size);
    var index := pages - 1 - loaded;
    PageBoundaries(length, size);
    if loaded > 0 {
      OffsetMonotone(index + 1, pages - 1, size);
    }
  }

  /** Between these positions of the stream lies this page. */
  predicate Spans<T>(props: Props<T>, forwards: bool, index: int, lo: int, hi: int) {
    var n, size := |props.list|, props.Size();
    && 0 <= index && 0 <= lo <= hi <= n
    && Min(Offset(index, size), n) == (if forwards then lo else n - hi)
    && Min(Offset(index + 1, size), n) == (if forwards then hi else n - lo)
  }

  /** What the next request depends on: the direction, how many pages are cached, and backwards the counts. */
  predicate InShape<T>(props: Props<T>, st: State<T>) {
    && |st.pageData| < Slots(props)
    && (st.increment == 1
        || (st.increment == -1 && Pages(props) > 1 && st.numPages == Pages(props)
             && st.numResults == Some(|props.list|)))
  }

  lemma PagingIsInShape<T>(props: Props<T>, st: State<T>)
    requires ComponentInv(props, st) && st.isPaging
    ensures InShape(props, st)
  {
  }

  /** The window that the next request reads is exactly the next page, short last page included. */
  lemma NextWindowIsNextPage<T>(props: Props<T>, st: State<T>)
    requires InShape(props, st)
    ensures var r, n, c := NextRequest(props, st), |props.list|, Consumed(props, st);
            var upTo := Min(c + r.limit, n);
            && Spans(props, st.increment == 1, r.index, c, upTo)
            && (upTo < n <==> |st.pageData| + 1 < Slots(props))
            && CoveredBy(props, st.increment, |st.pageData| + 1) == upTo
  {
    var n, s, k := |props.list|, props.Size(), |st.pageData|;
    if st.increment == 1 {
      ForwardWindow(n, s, k);
    } else {
      assert Pages(props) - (k + 1) == NextRequest(props, st).index;
      BackwardWindow(n, s, k);
    }
  }

  /**
   Forwards, the stream is the displayed list; backwards it is its reverse, so its reversed window is a mirrored
   slice.
   */
  lemma WindowOfStream<T>(list: seq<T>, sortAscending: bool, forwards: bool, lo: nat, hi: nat)
    requires lo <= hi <= |list|
    ensures var displayed := if sortAscending then Sequences.Reverse(list) else list;
            var window := Stream(list, forwards != sortAscending)[lo..hi];
            (forwards ==> window == displayed[lo..hi])
            && (!forwards ==> Sequences.Reverse(window) == displayed[|list| - hi..|list| - lo])
  {
    if !forwards {
      if sortAscending {
        ReverseWindow(list, |list| - hi, |list| - lo);
      } else {
        ReverseWindow(list, lo, hi);
      }
    }
  }

  /**
   A window of the stream that spans a page, turned round when paging backwards, is that page of the displayed
   list.
   */
  lemma WindowIsPage<T>(
    props: Props<T>, sortAscending: bool, forwards: bool, index: nat, lo: nat, hi: nat, window: seq<T>)
    requires Spans(props, forwards, index, lo, hi)
    requires window == Stream(props.list, forwards != sortAscending)[lo..hi]
    ensures (if forwards then window else Sequences.Reverse(window))
              == PageSlice(Displayed(props, sortAscending), index, props.Size())
  {
    WindowOfStream(props.list, sortAscending, forwards, lo, hi);
    if forwards {
      PageSliceIs(Displayed(props, sortAscending), index, props.Size(), lo, hi);
    } else {
      PageSliceIs(Displayed(props, sortAscending), index, props.Size(), |props.list| - hi, |props.list| - lo);
    }
  }

  function NextResponse<T>(props: Props<T>, st: State<T>): Response<T> {
    ArrayPager(props.list, NextRequest(props, st).paging, At(NextRequest(props, st).limit))
  }

  lemma NextResponseReadsWindow<T>(props: Props<T>, st: State<T>)
    requires ComponentInv(props, st) && st.isPaging
    ensures var c, limit, response := Consumed(props, st), NextRequest(props, st).limit, NextResponse(props, st);
            var n, withBefore := |props.list|, (st.increment == 1) != st.sortAscending;
            && 0 <= c <= n && response.Page? && response.count == n
            && response.data == Stream(props.list, withBefore)[c..Min(c + limit, n)]
            && (Truthy(if withBefore then response.paging.before else response.paging.after) <==> c + limit < n)
            && (c + limit < n ==> ResumesAt(response.paging, withBefore, c + limit, n))
  {
    PagingIsInShape(props, st);
    NextWindowIsNextPage(props, st);
    ServesNextWindow(props.list, NextRequest(props, st).paging, GetPageWithBefore(st), Consumed(props, st),
      NextRequest(props, st).limit);
  }

  /** What `_receivePage` stores for the next request. */
  function NextPage<T>(st: State<T>, response: Response<T>): seq<T>
    requires response.Page?
  {
    if st.increment == 1 then response.data else Sequences.Reverse(response.data)
  }

  /** The response to the next request, once stored, is the plain slice for its index. */
  lemma StoredPageIsSlice<T>(props: Props<T>, st: State<T>)
    requires ComponentInv(props, st) && st.isPaging
    ensures NextResponse(props, st).Page? && NextRequest(props, st).index >= 0
    ensures NextPage(st, NextResponse(props, st))
         == PageSlice(Displayed(props, st.sortAscending), NextRequest(props, st).index, props.Size())
  {
    var r, c := NextRequest(props, st), Consumed(props, st);
    PagingIsInShape(props, st);
    NextWindowIsNextPage(props, st);
    NextResponseReadsWindow(props, st);
    WindowIsPage(props, st.sortAscending, st.increment
      == 1, r.index, c, Min(c + r.limit, |props.list|), NextResponse(props, st).data);
  }

  /** Storing the next page moves the boundary to the end of that page, and paging stops with the last one. */
  lemma StoredPageMovesBoundary<T>(props: Props<T>, st: State<T>)
    requires ComponentInv(props, st) && st.isPaging
    ensures NextResponse(props, st).Page?
    ensures var st' := StorePage(props, st, NextRequest(props, st).index, NextResponse(props, st));
            Contiguous(props, st') && OnBoundary(props, st') && Counted(props, st')
  {
    var r, c := NextRequest(props, st), Consumed(props, st);
    PagingIsInShape(props, st);
    NextRequestExpected(props, st);
    NextWindowIsNextPage(props, st);
    NextResponseReadsWindow(props, st);
    var st' := StorePage(props, st, r.index, NextResponse(props, st));
    assert |st'.pageData| == |st.pageData| + 1;
    assert Consumed(props, st') == Min(c + r.limit, |props.list|);
  }

  /** Whatever was asked for with the current nonce is cached once the next request's page is. */
  lemma StoredPageServesRequests<T>(props: Props<T>, sys: System<T>, response: Response<T>)
    requires NetworkInv(props, sys) && response.Page?
    ensures var st := sys.component;
            NetworkInv(props, sys.(component := StorePage(props, st, NextRequest(props, st).index, response)))
  {
    var st := sys.component;
    var st' := StorePage(props, st, NextRequest(props, st).index, response);
    forall r | r in sys.network ensures Expected(props, st', r) {
      assert Expected(props, st, r);
    }
  }

  lemma StoredCacheAgrees<T>(props: Props<T>, st: State<T>)
    requires ComponentInv(props, st) && st.isPaging
    ensures NextResponse(props, st).Page?
    ensures CacheAgrees(props, StorePage(props, st, NextRequest(props, st).index, NextResponse(props, st)))
  {
    StoredPageIsSlice(props, st);
  }

  lemma StorePageKeepsInv<T>(props: Props<T>, sys: System<T>)
    requires ComponentInv(props, sys.component) && NetworkInv(props, sys) && sys.component.isPaging
    ensures NextResponse(props, sys.component).Page?
    ensures var sys' := sys.(component :=
              StorePage(props, sys.component, NextRequest(props, sys.component).index,
              NextResponse(props, sys.component)));
            ComponentInv(props, sys'.component) && NetworkInv(props, sys') && |sys'.component.pageData| > 0
  {
    StoredCacheAgrees(props, sys.component);
    StoredPageMovesBoundary(props, sys.component);
    StoredPageServesRequests(props, sys, NextResponse(props, sys.component));
    var r := NextRequest(props, sys.component);
    assert r.index in StorePage(props, sys.component, r.index, NextResponse(props, sys.component)).pageData;
  }

  // ---------- Every event ----------

  /** A response that is stale, or for a page already cached, or that arrives after unmounting, changes nothing. */
  lemma IgnoredDelivery<T>(props: Props<T>, sys: System<T>, request: Request)
    requires !sys.mounted || request.nonce != sys.component.pagingNonce || request.index in sys.component.pageData
    ensures DeliverStep(props, sys, request) == sys.(network := sys.network - multiset{request})
  {
  }

  /** Any other response is stored, and nothing that was cached changes. */
  lemma StoredDelivery<T>(props: Props<T>, sys: System<T>, request: Request)
    requires sys.mounted && request.nonce == sys.component.pagingNonce && request.index !in sys.component.pageData
    ensures var st, next := sys.component, DeliverStep(props, sys, request).component;
            && next.pageData.Keys == st.pageData.Keys + {request.index}
            && (forall i :: i in st.pageData ==> next.pageData[i] == st.pageData[i])
            && next.pagingNonce == st.pagingNonce
  {
    FailsOnlyOnNegativeLimit(props.list, request.paging, At(request.limit));
  }

  lemma DeliverKeepsInv<T>(props: Props<T>, sys: System<T>, request: Request)
    requires Inv(props, sys) && request in sys.network
    ensures Inv(props, DeliverStep(props, sys, request))
  {
    var rest := sys.(network := sys.network - multiset{request});
    assert NetworkInv(props, rest);
    if Accepts(sys, request) {
      assert Expected(props, sys.component, request);
      var response := ArrayPager(props.list, request.paging, At(request.limit));
      StorePageKeepsInv(props, rest);
      KickKeepsInv(props, rest.(component := StorePage(props, rest.component, request.index, response)));
    } else if sys.component.isPaging {
      NextRequestExpected(props, sys.component);
    }
  }

  lemma MountEstablishesInv<T>(props: Props<T>, startPage: Option<int>)
    ensures Inv(props, Mount(props, startPage))
  {
    RestartKeepsInv(props, System(InitialPagingState(0, 0, false), true, multiset{}),
                    if startPage.None? then 0 else startPage.value, false);
  }

  lemma RestartKeepsInv<T>(props: Props<T>, sys: System<T>, page: int, sortAscending: bool)
    requires NetworkInv(props, sys)
    ensures Inv(props, Restart(props, sys, page, sortAscending))
  {
    var reset := InitialPagingState<T>(page, sys.component.pagingNonce + 1, sortAscending);
    EmptyCacheInv(props, reset);
    ResetKeepsInv(props, sys, reset);
  }

  lemma ReverseKeepsInv<T>(props: Props<T>, sys: System<T>)
    requires Inv(props, sys) && sys.component.numPages > 1
    ensures Inv(props, ReverseStep(props, sys))
  {
    EmptyCacheInv(props, ReversedState(sys.component));
    ResetKeepsInv(props, sys, ReversedState(sys.component));
  }

  lemma NavigateKeepsInv<T>(props: Props<T>, sys: System<T>, pageNumber: int)
    requires Inv(props, sys)
    ensures Inv(props, NavigateToPage(props, sys, pageNumber))
  {
    var st := Navigated(sys.component, pageNumber);
    assert NextRequest(props, st) == NextRequest(props, sys.component);
    KickKeepsInv(props, sys.(component := st));
  }

  lemma NextKeepsInv<T>(props: Props<T>, sys: System<T>, event: Event)
    requires Inv(props, sys) && Enabled(sys, event)
    ensures Inv(props, Next(props, sys, event))
  {
    match event
    case Navigate(pageNumber) => NavigateKeepsInv(props, sys, pageNumber);
    case Reverse => ReverseKeepsInv(props, sys);
    case Refresh => RestartKeepsInv(props, sys, sys.component.page, sys.component.sortAscending);
    case Reload(startPage) =>
      RestartKeepsInv(props, sys, if startPage.None? then 0 else startPage.value, sys.component.sortAscending);
    case SetSort(ascending) => RestartKeepsInv(props, sys, 0, ascending);
    case Deliver(request) => DeliverKeepsInv(props, sys, request);
    case Unmount =>
  }
}
