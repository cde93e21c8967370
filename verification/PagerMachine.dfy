/**
 The bidirectional pager of web/js/pagination/make-pageable.js as a state machine:
 a component and a network of unanswered page requests. A step is one browser event
 together with the setState callback it schedules. The list and the page size are fixed.
 */
module PagerMachine {
  import opened Sequences
  import opened ArrayPaging
  import opened PagingBlock
  import Runs

  /** What the component is mounted with; a page size of zero or none means twenty. */
  datatype Props<T> = Props(list: seq<T>, pageSize: nat) {
    function Size(): nat {
      if pageSize == 0 then 20 else pageSize
    }
  }

  /** The pages of a list are numbered from zero; the last one may be short. */
  function NumPages(length: nat, size: nat): nat
    requires size > 0
  {
    (length + size - 1) / size
  }

  datatype State<T> = State(
    after: Marker,
    before: Marker,
    farthestPage: Option<int>,
    increment: int,
    isPaging: bool,
    numPages: int,
    numResults: Option<nat>,
    page: int,
    pageData: map<int, seq<T>>,
    pagingNonce: nat,
    sortAscending: bool)

  /** A page request: what is sent to the fetcher, and what its callback closes over. */
  datatype Request = Request(paging: Paging, limit: nat, ascending: bool, index: int, nonce: nat)

  datatype System<T> = System(component: State<T>, mounted: bool, network: multiset<Request>)

  datatype Event =
    | Navigate(pageNumber: int)
    | Reverse
    | Refresh
    | Reload(startPage: Option<int>)
    | SetSort(ascending: bool)
    | Deliver(request: Request)
    | Unmount

  // ---------- The component's own functions ----------

  function InitialPagingState<T>(page: int, nonce: nat, sortAscending: bool): State<T> {
    State(Null, Null, None, 1, true, 0, None, page, map[], nonce, sortAscending)
  }

  function GetPageWithBefore<T>(st: State<T>): bool {
    (st.sortAscending && st.increment == -1) || (!st.sortAscending && st.increment == 1)
  }

  function GetAscending<T>(st: State<T>): bool {
    (st.sortAscending && st.increment == 1) || (!st.sortAscending && st.increment == -1)
  }

  function CalculateFarthestPage(pageIndex: int, numPages: int, increment: int): int {
    var flags := CalculateEllipsisFlags(numPages, pageIndex);
    if flags.first && flags.second then
      pageIndex + increment
    else if flags.first then
      if increment == 1 then numPages - 1 else numPages - 1 - NUM_PAGES_EACH_SIDE - 1
    else if flags.second then
      if increment == 1 then NUM_PAGES_EACH_SIDE + 1 else 0
    else
      if increment == 1 then numPages - 1 else 0
  }

  function PageToFill<T>(st: State<T>): int {
    if st.increment == 1 then |st.pageData| else st.numPages - 1 - |st.pageData|
  }

  /** A farthest page of null or 0 is falsy and never stops the kicker. */
  predicate WantsMore<T>(st: State<T>) {
    || st.farthestPage.None?
    || st.farthestPage.value == 0
    || (if st.increment == 1 then PageToFill(st) <= st.farthestPage.value else PageToFill(st) >= st.farthestPage.value)
  }

  function Remainder<T>(st: State<T>, size: nat): nat
    requires size > 0
  {
    if st.numResults.None? then 0 else st.numResults.value % size
  }

  /** The request `_fillPage` sends for a page. */
  function FillPage<T>(props: Props<T>, st: State<T>, index: int): Request {
    var limitPageSize := st.increment == -1 && index == st.numPages - 1 && Remainder(st, props.Size()) != 0;
    Request(
      if GetPageWithBefore(st) then Paging(st.before, Undefined) else Paging(Undefined, st.after),
      if limitPageSize then Remainder(st, props.Size()) else props.Size(),
      GetAscending(st),
      index,
      st.pagingNonce)
  }

  function Kick<T>(props: Props<T>, sys: System<T>, nonce: nat): System<T> {
    var st := sys.component;
    if st.isPaging && nonce == st.pagingNonce && WantsMore(st) then
      sys.(network := sys.network + multiset{FillPage(props, st, PageToFill(st))})
    else
      sys
  }

  predicate Truthy(m: Marker) {
    m.At? && m.pos != 0
  }

  /** The state update of `_receivePage` once its guard has let a response through. */
  function StorePage<T>(props: Props<T>, st: State<T>, index: int, response: Response<T>): State<T>
    requires response.Page?
  {
    var numPages := NumPages(response.count, props.Size());
    var page := if st.page >= numPages then 0 else st.page;
    st.(
      pageData := st.pageData[index := if st.increment == 1 then response.data else Sequences.Reverse(response.data)],
      after := response.paging.after,
      before := response.paging.before,
      numPages := numPages,
      page := page,
      numResults := Some(response.count),
      isPaging := Truthy(if GetPageWithBefore(st) then response.paging.before else response.paging.after),
      farthestPage := Some(CalculateFarthestPage(page, numPages, st.increment)))
  }

  predicate Accepts<T>(sys: System<T>, request: Request) {
    sys.mounted && sys.component.pagingNonce == request.nonce && request.index !in sys.component.pageData
  }

  function ReceivePage<T>(props: Props<T>, sys: System<T>, request: Request, response: Response<T>): System<T>
    requires response.Page?
  {
    if Accepts(sys, request) then
      Kick(props, sys.(component := StorePage(props, sys.component, request.index, response)), request.nonce)
    else
      sys
  }

  /** The server answers one outstanding request, whichever it is. */
  function DeliverStep<T>(props: Props<T>, sys: System<T>, request: Request): System<T> {
    var response := ArrayPager(props.list, request.paging, At(request.limit));
    FailsOnlyOnNegativeLimit(props.list, request.paging, At(request.limit));
    ReceivePage(props, sys.(network := sys.network - multiset{request}), request, response)
  }

  function Navigated<T>(st: State<T>, pageNumber: int): State<T> {
    st.(page := pageNumber, farthestPage := Some(CalculateFarthestPage(pageNumber, st.numPages, st.increment)))
  }

  function NavigateToPage<T>(props: Props<T>, sys: System<T>, pageNumber: int): System<T> {
    Kick(props, sys.(component := Navigated(sys.component, pageNumber)), sys.component.pagingNonce)
  }

  /** A reset takes a nonce no earlier request carries. */
  function Restart<T>(props: Props<T>, sys: System<T>, page: int, sortAscending: bool): System<T> {
    var nonce := sys.component.pagingNonce + 1;
    Kick(props, sys.(component := InitialPagingState(page, nonce, sortAscending)), nonce)
  }

  /** The state `_reverse` restarts from: the other end, with the counts it already knows. */
  function ReversedState<T>(st: State<T>): State<T> {
    var newIncrement := -st.increment;
    var newPage := if newIncrement == 1 then 0 else st.numPages - 1;
    InitialPagingState(newPage, st.pagingNonce + 1, st.sortAscending).(
      increment := newIncrement,
      numPages := st.numPages,
      farthestPage := Some(CalculateFarthestPage(newPage, st.numPages, newIncrement)),
      numResults := st.numResults)
  }

  function ReverseStep<T>(props: Props<T>, sys: System<T>): System<T> {
    Kick(props, sys.(component := ReversedState(sys.component)), sys.component.pagingNonce + 1)
  }

  /**
   What can happen to a mounted component. Page buttons lead to existing pages, but the Back and Forward
   buttons of the browser navigate to any page number the address bar ever held, whatever is loaded.
   */
  predicate Enabled<T>(sys: System<T>, event: Event) {
    match event
    case Reverse => sys.mounted && sys.component.numPages > 1
    case Deliver(request) => request in sys.network
    case _ => sys.mounted
  }

  function Next<T>(props: Props<T>, sys: System<T>, event: Event): System<T> {
    match event
    case Navigate(pageNumber) => NavigateToPage(props, sys, pageNumber)
    case Reverse => ReverseStep(props, sys)
    case Refresh => Restart(props, sys, sys.component.page, sys.component.sortAscending)
    case Reload(startPage) =>
      Restart(props, sys, if startPage.None? then 0 else startPage.value, sys.component.sortAscending)
    case SetSort(ascending) => Restart(props, sys, 0, ascending)
    case Deliver(request) => DeliverStep(props, sys, request)
    case Unmount => sys.(mounted := false)
  }

  /** `componentDidMount` reloads from the start page the component was given. */
  function Mount<T>(props: Props<T>, startPage: Option<int>): System<T> {
    var page := if startPage.None? then 0 else startPage.value;
    Restart(props, System(InitialPagingState(page, 0, false), true, multiset{}), page, false)
  }

  function Enabling<T>(): (System<T>, Event) -> bool {
    (sys: System<T>, event: Event) => Enabled(sys, event)
  }

  function Stepping<T>(props: Props<T>): (System<T>, Event) -> System<T> {
    (sys: System<T>, event: Event) => Next(props, sys, event)
  }

  ghost predicate IsRun<T(!new)>(props: Props<T>, sys: System<T>, events: seq<Event>) {
    Runs.CanRun(Enabling(), Stepping(props), sys, events)
  }

  ghost function Run<T(!new)>(props: Props<T>, sys: System<T>, events: seq<Event>): System<T> {
    Runs.After(Stepping(props), sys, events)
  }

  // ---------- What the component should show ----------

  /** The list in the order the table displays it. */
  function Displayed<T>(props: Props<T>, sortAscending: bool): seq<T> {
    if sortAscending then Sequences.Reverse(props.list) else props.list
  }

  /** Plain slicing: the reference the cache is compared with. */
  function PageOf<T>(entries: seq<T>, index: nat, size: nat): seq<T> {
    entries[Min(index * size, |entries|)..Min((index + 1) * size, |entries|)]
  }
}
