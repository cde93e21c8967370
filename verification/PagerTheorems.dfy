/** What holds of the pager over whole runs. */
module PagerTheorems {
  import opened Sequences
  import opened ArrayPaging
  import opened PagingBlock
  import opened PagerMachine
  import opened PagerInvariant
  import Runs

  lemma {:induction false} RunKeepsInv<T(!new)>(props: Props<T>, sys: System<T>, events: seq<Event>)
    requires Inv(props, sys) && IsRun(props, sys, events)
    ensures Inv(props, Run(props, sys, events))
    decreases |events|
  {
    if events != [] {
      NextKeepsInv(props, sys, events[0]);
      RunKeepsInv(props, Next(props, sys, events[0]), events[1..]);
    }
  }

  ghost predicate Reachable<T(!new)>(props: Props<T>, sys: System<T>) {
    exists startPage, events ::
      IsRun(props, Mount(props, startPage), events) && sys == Run(props, Mount(props, startPage), events)
  }

  lemma ReachableInv<T(!new)>(props: Props<T>, sys: System<T>)
    requires Reachable(props, sys)
    ensures Inv(props, sys)
  {
    var startPage, events :|
      IsRun(props, Mount(props, startPage), events) && sys == Run(props, Mount(props, startPage), events);
    MountEstablishesInv(props, startPage);
    RunKeepsInv(props, Mount(props, startPage), events);
  }

  lemma RunsJoin<T(!new)>(props: Props<T>, start: System<T>, one: seq<Event>, two: seq<Event>)
    requires IsRun(props, start, one) && IsRun(props, Run(props, start, one), two)
    ensures IsRun(props, start, one + two) && Run(props, start, one + two) == Run(props, Run(props, start, one), two)
  {
    Runs.Concat(Enabling(), Stepping(props), start, one, two);
  }

  /** Whatever a run leads to from a reachable state is reachable. */
  lemma RunReachable<T(!new)>(props: Props<T>, sys: System<T>, events: seq<Event>)
    requires Reachable(props, sys) && IsRun(props, sys, events)
    ensures Reachable(props, Run(props, sys, events))
  {
    var startPage, past :|
      IsRun(props, Mount(props, startPage), past) && sys == Run(props, Mount(props, startPage), past);
    RunsJoin(props, Mount(props, startPage), past, events);
    assert IsRun(props, Mount(props, startPage), past + events);
  }

  lemma NextReachable<T(!new)>(props: Props<T>, sys: System<T>, e: Event)
    requires Reachable(props, sys) && Enabled(sys, e)
    ensures Reachable(props, Next(props, sys, e))
  {
    RunPrepend(props, sys, e, []);
    assert [e] + [] == [e];
    RunReachable(props, sys, [e]);
  }

  /** Whatever happened before, each cached page is the plain slice of the list as displayed. */
  lemma CachedPageIsSlice<T(!new)>(props: Props<T>, sys: System<T>, index: int)
    requires Reachable(props, sys) && index in sys.component.pageData
    ensures 0 <= index < Slots(props)
    ensures sys.component.pageData[index]
         == PageOf(
              if sys.component.sortAscending then Sequences.Reverse(props.list) else props.list,
              index,
              if props.pageSize == 0 then 20 else props.pageSize)
  {
    ReachableInv(props, sys);
    OffsetIsProduct(index, props.Size());
    OffsetIsProduct(index + 1, props.Size());
  }

  /** Paging from the other end, refreshing or reloading never changes what a page shows. */
  lemma DirectionNeverShows<T(!new)>(props: Props<T>, one: System<T>, other: System<T>, index: int)
    requires Reachable(props, one) && Reachable(props, other)
    requires one.component.sortAscending == other.component.sortAscending
    requires index in one.component.pageData && index in other.component.pageData
    ensures one.component.pageData[index] == other.component.pageData[index]
  {
    CachedPageIsSlice(props, one, index);
    CachedPageIsSlice(props, other, index);
  }

  /**
   Over every interleaving, the cache is a block at one end of the list, the marker sits at the
   edge of that block, and every outstanding request of the current nonce is for a cached page
   (it will be ignored) or is the request for the page next to the block.
   */
  lemma CacheIsBlockAtOneEnd<T(!new)>(props: Props<T>, sys: System<T>)
    requires Reachable(props, sys)
    ensures var st := sys.component;
            var loaded := |st.pageData|;
            && (st.increment == 1 ==> forall i :: i in st.pageData <==> 0 <= i < loaded)
            && (st.increment == -1 ==> forall i :: i in st.pageData <==> Pages(props) - loaded <= i < Pages(props))
            && (st.increment == 1 || st.increment == -1)
            && (st.isPaging ==>
                  ResumesAt(NextRequest(props, st).paging, GetPageWithBefore(st), Consumed(props, st), |props.list|))
            && (forall r :: r in sys.network && r.nonce == st.pagingNonce ==>
                  !Accepts(sys, r) || (r == NextRequest(props, st)
                    && (r.index - 1 in st.pageData || r.index + 1 in st.pageData || loaded == 0)))
  {
    ReachableInv(props, sys);
    var st := sys.component;
    forall r | r in sys.network && r.nonce == st.pagingNonce
      ensures !Accepts(sys, r)
                || (r == NextRequest(props, st)
                && (r.index - 1 in st.pageData || r.index + 1 in st.pageData || |st.pageData| == 0))
    {
      assert Expected(props, st, r);
    }
  }

  /** No request, current or stale, ever leaves the pages of the list (page 0 of an empty list excepted). */
  lemma RequestsStayInRange<T(!new)>(props: Props<T>, sys: System<T>, r: Request)
    requires Reachable(props, sys) && r in sys.network
    ensures 0 <= r.index < Slots(props)
    ensures 0 < r.limit <= props.Size()
    ensures r.ascending <==> r.paging.after != Undefined
  {
    ReachableInv(props, sys);
    assert Expected(props, sys.component, r);
  }

  // ---------- Termination ----------

  /** Pages not cached yet, plus requests not answered yet. */
  function Measure<T>(props: Props<T>, sys: System<T>): int {
    Slots(props) - |sys.component.pageData| + |sys.network|
  }

  lemma DeliveryDecreases<T>(props: Props<T>, sys: System<T>, r: Request)
    requires Inv(props, sys) && r in sys.network
    ensures Measure(props, DeliverStep(props, sys, r)) < Measure(props, sys)
  {
    assert |sys.network - multiset{r}| == |sys.network| - 1;
  }

  predicate OnlyDeliveries(events: seq<Event>) {
    forall i :: 0 <= i < |events| ==> events[i].Deliver?
  }

  /** If the user does nothing more, only a bounded number of responses can still arrive. */
  lemma {:induction false} DeliveriesTerminate<T(!new)>(props: Props<T>, sys: System<T>, events: seq<Event>)
    requires Inv(props, sys) && IsRun(props, sys, events) && OnlyDeliveries(events)
    ensures |events| <= Slots(props) - |sys.component.pageData| + |sys.network|
    decreases |events|
  {
    if events != [] {
      DeliveryDecreases(props, sys, events[0].request);
      NextKeepsInv(props, sys, events[0]);
      DeliveriesTerminate(props, Next(props, sys, events[0]), events[1..]);
    } else {
      assert |sys.component.pageData| <= Slots(props);
    }
  }

  // ---------- Quiescence ----------

  /**
   The frontier covers every numbered button whatever page is selected, and an existing page with its neighbours,
   in either direction.
   */
  lemma FrontierCoversWindow(page: int, numPages: nat, i: int)
    requires InWindow(InteriorWindow(numPages, page), i)
               || (0 <= page < numPages && page - 1 <= i <= page + 1 && 0 <= i < numPages)
    ensures 0 <= i < numPages
    ensures i <= CalculateFarthestPage(page, numPages, 1)
    ensures CalculateFarthestPage(page, numPages, -1) <= i
  {
  }

  /**
   How far to fetch: to the last numbered button on the side paging goes to, or to the end if no ellipsis hides
   it.
   */
  function Frontier(numPages: nat, page: int, increment: int): int {
    var window := InteriorWindow(numPages, page);
    if increment == 1 then
      if numPages <= 7 || page >= numPages - 4 then numPages - 1 else window.start + window.count - 1
    else
      if numPages <= 7 || page <= 3 then 0 else window.start
  }

  /** The farthest page is exactly that, whatever page is selected. */
  lemma FrontierIsExact(numPages: nat, page: int, increment: int)
    requires increment == 1 || increment == -1
    ensures CalculateFarthestPage(page, numPages, increment) == Frontier(numPages, page, increment)
  {
  }

  /** With nothing outstanding the pages have been counted, and the cached block reaches the frontier. */
  lemma QuietBlockReachesFrontier<T>(props: Props<T>, sys: System<T>, i: int)
    requires Inv(props, sys) && sys.mounted && sys.network == multiset{}
    requires 0 <= i < Slots(props)
    requires sys.component.increment == 1 ==>
               i <= CalculateFarthestPage(sys.component.page, Pages(props), 1) || Pages(props) == 0
    requires sys.component.increment == -1 ==> CalculateFarthestPage(sys.component.page, Pages(props), -1) <= i
    ensures i in sys.component.pageData
  {
    var st := sys.component;
    QuietPagesCounted(props, sys);
    if st.isPaging {
      assert !WantsMore(st);
    } else {
      assert |st.pageData| == Slots(props);
    }
  }

  lemma QuietPagesCounted<T>(props: Props<T>, sys: System<T>)
    requires Inv(props, sys) && sys.mounted && sys.network == multiset{}
    ensures |sys.component.pageData| > 0 && Counted(props, sys.component)
  {
  }

  predicate HasNextPage<T>(st: State<T>) {
    st.page in st.pageData && st.page + 1 in st.pageData
  }

  predicate HasPreviousPage<T>(st: State<T>) {
    st.page in st.pageData && st.page - 1 in st.pageData
  }

  lemma QuietWindowIsCached<T>(props: Props<T>, sys: System<T>, i: int)
    requires Inv(props, sys) && sys.mounted && sys.network == multiset{}
    requires var page := sys.component.page;
             InWindow(InteriorWindow(Pages(props), page), i)
               || (0 <= page < Pages(props) && page - 1 <= i <= page + 1 && 0 <= i < Pages(props))
    ensures i in sys.component.pageData
  {
    FrontierCoversWindow(sys.component.page, Pages(props), i);
    QuietBlockReachesFrontier(props, sys, i);
  }

  lemma CachedPagesExist<T>(props: Props<T>, st: State<T>, i: int)
    requires Contiguous(props, st) && i in st.pageData
    ensures 0 <= i < Slots(props)
  {
  }

  /**
   Once every response has arrived, the page behind every numbered button is there, the selected page is there
   exactly when the list has it, and Next and Previous are on exactly when they lead from it to another page.
   */
  lemma QuietPagerShowsEverything<T(!new)>(props: Props<T>, sys: System<T>)
    requires Reachable(props, sys) && sys.mounted && sys.network == multiset{}
    ensures var st := sys.component;
            && st.numPages == Pages(props)
            && (st.page in st.pageData <==> 0 <= st.page < Slots(props))
            && (forall i :: InWindow(InteriorWindow(st.numPages, st.page), i) ==> i in st.pageData)
            && (HasNextPage(st) <==> 0 <= st.page && st.page + 1 < Pages(props))
            && (HasPreviousPage(st) <==> 0 < st.page < Pages(props))
  {
    ReachableInv(props, sys);
    var st := sys.component;
    QuietPagesCounted(props, sys);
    forall i | InWindow(InteriorWindow(st.numPages, st.page), i) ensures i in st.pageData {
      QuietWindowIsCached(props, sys, i);
    }
    if 0 <= st.page < Pages(props) {
      forall i | st.page - 1 <= i <= st.page + 1 && 0 <= i < Pages(props) ensures i in st.pageData {
        QuietWindowIsCached(props, sys, i);
      }
    }
    if Pages(props) == 0 {
      QuietBlockReachesFrontier(props, sys, 0);
    }
    forall i | i in st.pageData ensures 0 <= i < Slots(props) {
      CachedPagesExist(props, st, i);
    }
  }

  // ---------- Where the pager settles ----------

  /** Some outstanding response is going to be stored. */
  ghost predicate WillReceive<T>(sys: System<T>) {
    exists r :: r in sys.network && Accepts(sys, r)
  }

  /** Storing a page sends a selected page past the end to page 0. */
  ghost function SettledPage<T>(props: Props<T>, sys: System<T>): int {
    if WillReceive(sys) && sys.component.page >= Pages(props) then 0 else sys.component.page
  }

  /** The one response that can be stored answers the next request. */
  lemma WillReceiveNext<T>(props: Props<T>, sys: System<T>)
    requires Inv(props, sys)
    ensures WillReceive(sys) <==>
              sys.mounted && sys.component.isPaging && NextRequest(props, sys.component) in sys.network
  {
    if WillReceive(sys) {
      var r :| r in sys.network && Accepts(sys, r);
      assert Expected(props, sys.component, r);
    }
    if sys.component.isPaging && NextRequest(props, sys.component) in sys.network {
      NextRequestExpected(props, sys.component);
      assert sys.mounted ==> Accepts(sys, NextRequest(props, sys.component));
    }
  }

  /** What a delivery leaves alone: whether the component is mounted, the sort order and the direction. */
  predicate SameView<T>(one: System<T>, other: System<T>) {
    && other.mounted == one.mounted
    && other.component.sortAscending == one.component.sortAscending
    && other.component.increment == one.component.increment
  }

  lemma StoredPageSettles<T>(props: Props<T>, sys: System<T>, r: Request)
    requires Inv(props, sys) && r in sys.network && Accepts(sys, r)
    ensures SettledPage(props, DeliverStep(props, sys, r)) == SettledPage(props, sys)
  {
    assert Expected(props, sys.component, r);
    NextResponseReadsWindow(props, sys.component);
    var page := DeliverStep(props, sys, r).component.page;
    assert page == if sys.component.page >= Pages(props) then 0 else sys.component.page;
    assert page < Pages(props) || page == 0;
  }

  lemma IgnoredPageSettles<T>(props: Props<T>, sys: System<T>, r: Request)
    requires r in sys.network && !Accepts(sys, r)
    ensures SettledPage(props, DeliverStep(props, sys, r)) == SettledPage(props, sys)
  {
    IgnoredDelivery(props, sys, r);
    var next := DeliverStep(props, sys, r);
    if WillReceive(sys) {
      var other :| other in sys.network && Accepts(sys, other);
      assert other in next.network && Accepts(next, other);
    }
    if WillReceive(next) {
      var other :| other in next.network && Accepts(next, other);
      assert other in sys.network && Accepts(sys, other);
    }
  }

  lemma DeliveryKeepsView<T>(props: Props<T>, sys: System<T>, r: Request)
    requires Inv(props, sys) && r in sys.network
    ensures var next := Next(props, sys, Deliver(r));
            SameView(sys, next) && Inv(props, next) && SettledPage(props, next) == SettledPage(props, sys)
  {
    NextKeepsInv(props, sys, Deliver(r));
    if Accepts(sys, r) {
      StoredPageSettles(props, sys, r);
    } else {
      IgnoredPageSettles(props, sys, r);
    }
  }

  /** Answers, whatever their order, never change where the pager settles. */
  lemma {:induction false} DeliveriesKeepView<T(!new)>(props: Props<T>, sys: System<T>, events: seq<Event>)
    requires Inv(props, sys) && IsRun(props, sys, events) && OnlyDeliveries(events)
    ensures var end := Run(props, sys, events);
            SameView(sys, end) && SettledPage(props, end) == SettledPage(props, sys)
    decreases |events|
  {
    if events != [] {
      DeliveryKeepsView(props, sys, events[0].request);
      DeliveriesKeepView(props, Next(props, sys, events[0]), events[1..]);
    }
  }

  lemma DeliveryProgresses<T>(props: Props<T>, sys: System<T>, r: Request)
    requires Inv(props, sys) && r in sys.network
    ensures var next := Next(props, sys, Deliver(r));
            Inv(props, next) && 0 <= Measure(props, next) < Measure(props, sys)
  {
    NextKeepsInv(props, sys, Deliver(r));
    DeliveryDecreases(props, sys, r);
    MeasureIsNatural(props, Next(props, sys, Deliver(r)));
  }

  lemma MeasureIsNatural<T>(props: Props<T>, sys: System<T>)
    requires Inv(props, sys)
    ensures 0 <= Measure(props, sys)
  {
  }

  lemma OneMoreDelivery<T(!new)>(props: Props<T>, sys: System<T>, r: Request, rest: seq<Event>)
    requires r in sys.network && OnlyDeliveries(rest) && IsRun(props, Next(props, sys, Deliver(r)), rest)
    ensures var events := [Deliver(r)] + rest;
            && OnlyDeliveries(events) && IsRun(props, sys, events)
            && Run(props, sys, events) == Run(props, Next(props, sys, Deliver(r)), rest)
  {
    var events := [Deliver(r)] + rest;
    assert events[1..] == rest;
    RunUnfolds(props, sys, events);
  }

  lemma {:induction false} SomeScheduleSettles<T(!new)>(props: Props<T>, sys: System<T>) returns (events: seq<Event>)
    requires Inv(props, sys)
    ensures OnlyDeliveries(events) && IsRun(props, sys, events) && Run(props, sys, events).network == multiset{}
    decreases Measure(props, sys) + 1
  {
    if sys.network == multiset{} {
      events := [];
    } else {
      var r :| r in sys.network;
      DeliveryProgresses(props, sys, r);
      MeasureIsNatural(props, sys);
      var rest := SomeScheduleSettles(props, Next(props, sys, Deliver(r)));
      OneMoreDelivery(props, sys, r, rest);
      events := [Deliver(r)] + rest;
    }
  }

  lemma RunUnfolds<T(!new)>(props: Props<T>, sys: System<T>, events: seq<Event>)
    requires events != []
    ensures IsRun(props, sys, events)
       <==> Enabled(sys, events[0]) && IsRun(props, Next(props, sys, events[0]), events[1..])
    ensures Run(props, sys, events) == Run(props, Next(props, sys, events[0]), events[1..])
  {
  }

  lemma RunPrepend<T(!new)>(props: Props<T>, sys: System<T>, e: Event, rest: seq<Event>)
    requires Enabled(sys, e) && IsRun(props, Next(props, sys, e), rest)
    ensures IsRun(props, sys, [e] + rest) && Run(props, sys, [e] + rest) == Run(props, Next(props, sys, e), rest)
  {
    assert ([e] + rest)[1..] == rest;
    RunUnfolds(props, sys, [e] + rest);
  }

  /**
   From any reachable state, whatever the order of the answers, the pager comes to rest on the page the user
   selected, or on page 0 if that page is past the end and a response is still going to be stored. If the
   list has the page it rests on, its slice is shown.
   */
  lemma PagerSettlesOnPage<T(!new)>(props: Props<T>, sys: System<T>, events: seq<Event>)
    requires Reachable(props, sys) && sys.mounted
    requires OnlyDeliveries(events) && IsRun(props, sys, events) && Run(props, sys, events).network == multiset{}
    ensures var end := Run(props, sys, events).component;
            && end.page == SettledPage(props, sys)
            && (end.page in end.pageData <==> 0 <= end.page < Slots(props))
            && (end.page in end.pageData ==>
                  0 <= end.page && end.pageData[end.page]
                    == PageOf(Displayed(props, sys.component.sortAscending), end.page, props.Size()))
  {
    ReachableInv(props, sys);
    DeliveriesKeepView(props, sys, events);
    var end := Run(props, sys, events);
    RunReachable(props, sys, events);
    QuietPagerShowsEverything(props, end);
    if end.component.page in end.component.pageData {
      CachedPageIsSlice(props, end, end.component.page);
    }
  }

  // ---------- Navigating to a page the list does not have ----------

  /** The next page to fetch is not past the frontier of a selected page; a frontier of 0 never holds the pager back. */
  predicate Reaches<T>(st: State<T>, page: int)
    requires st.numPages >= 0
  {
    var frontier := Frontier(st.numPages, page, st.increment);
    || frontier == 0
    || (if st.increment == 1 then PageToFill(st) <= frontier else PageToFill(st) >= frontier)
  }

  lemma ReachesIsWanting<T>(props: Props<T>, st: State<T>, page: int)
    requires ComponentInv(props, st)
    ensures st.numPages >= 0
    ensures WantsMore(Navigated(st, page)) <==> Reaches(st, page)
  {
    FrontierIsExact(st.numPages, page, st.increment);
  }

  /** After navigating, a response will be stored exactly if one was coming already or the new frontier asks for one. */
  lemma NavigationReceives<T>(props: Props<T>, sys: System<T>, pageNumber: int)
    requires Inv(props, sys) && sys.mounted
    ensures WillReceive(NavigateToPage(props, sys, pageNumber))
       <==> WillReceive(sys) || (sys.component.isPaging && WantsMore(Navigated(sys.component, pageNumber)))
  {
    var next := NavigateToPage(props, sys, pageNumber);
    NavigateKeepsInv(props, sys, pageNumber);
    WillReceiveNext(props, sys);
    WillReceiveNext(props, next);
    assert NextRequest(props, next.component) == NextRequest(props, sys.component);
  }

  /**
   A history button may lead past the end of the list. The pager then comes to rest on page 0 if, at the time of
   the click, a page was still to be stored or the new frontier asks for one; otherwise it stays for good on a
   page that does not exist. Nothing corrects a negative page.
   */
  lemma NavigationPastTheEnd<T(!new)>(props: Props<T>, sys: System<T>, pageNumber: int, events: seq<Event>)
    requires Reachable(props, sys) && sys.mounted && !(0 <= pageNumber < Slots(props))
    requires var next := Next(props, sys, Navigate(pageNumber));
             OnlyDeliveries(events) && IsRun(props, next, events) && Run(props, next, events).network == multiset{}
    ensures sys.component.numPages >= 0
    ensures var end, st := Run(props, Next(props, sys, Navigate(pageNumber)), events).component, sys.component;
            var corrected := pageNumber > 0
              && (WillReceive(sys) || (st.isPaging && Reaches(st, pageNumber)));
            && end.page == (if corrected then 0 else pageNumber)
            && (end.page in end.pageData <==> corrected)
  {
    var next := Next(props, sys, Navigate(pageNumber));
    ReachableInv(props, sys);
    ReachesIsWanting(props, sys.component, pageNumber);
    NavigationReceives(props, sys, pageNumber);
    NextReachable(props, sys, Navigate(pageNumber));
    PagerSettlesOnPage(props, next, events);
  }

  /** A list of one page, opened at page 5: the answer selects page 0, and nothing is left to ask for. */
  lemma AnsweredOnePage()
    ensures var props := Props([7], 20);
            var start := Mount(props, Some(5));
            var r := NextRequest(props, start.component);
            var answered := Next(props, start, Deliver(r));
            && start.network == multiset{r} && answered.network == multiset{} && answered.mounted
            && !answered.component.isPaging && answered.component.pageData.Keys == {0} && answered.component.page == 0
  {
  }

  /** From there the Back button strands the pager on page 5. */
  lemma BackToMissingPage()
    ensures var props := Props([7], 20);
            var r := NextRequest(props, Mount(props, Some(5)).component);
            var events := [Deliver(r), Navigate(5)];
            && IsRun(props, Mount(props, Some(5)), events)
            && var end := Run(props, Mount(props, Some(5)), events);
               end.network == multiset{} && end.component.page == 5 && 5 !in end.component.pageData
  {
    var props := Props([7], 20);
    var start := Mount(props, Some(5));
    var r := NextRequest(props, start.component);
    var answered := Next(props, start, Deliver(r));
    AnsweredOnePage();
    RunPrepend(props, answered, Navigate(5), []);
    RunPrepend(props, start, Deliver(r), [Navigate(5)]);
    assert [Navigate(5)] + [] == [Navigate(5)] && [Deliver(r)] + [Navigate(5)] == [Deliver(r), Navigate(5)];
    assert Next(props, answered, Navigate(5)) == answered.(component := Navigated(answered.component, 5));
  }

  // ---------- What each event selects, shows and asks for ----------

  /** The page a user event selects. */
  function SelectedPage<T>(props: Props<T>, st: State<T>, event: Event): int {
    match event
    case Navigate(pageNumber) => pageNumber
    case Reverse => if st.increment == 1 then Pages(props) - 1 else 0
    case Reload(Some(startPage)) => startPage
    case Reload(None) => 0
    case SetSort(_) => 0
    case _ => st.page
  }

  function SelectedOrder<T>(st: State<T>, event: Event): bool {
    if event.SetSort? then event.ascending else st.sortAscending
  }

  /** Reversing turns round; navigating keeps the direction; everything else starts forwards. */
  function SelectedDirection<T>(st: State<T>, event: Event): int {
    match event
    case Navigate(_) => st.increment
    case Reverse => if st.increment == 1 then -1 else 1
    case _ => 1
  }

  predicate IsUserEvent(event: Event) {
    !event.Deliver? && !event.Unmount?
  }

  lemma EventSelects<T>(props: Props<T>, sys: System<T>, event: Event)
    requires Inv(props, sys) && Enabled(sys, event) && IsUserEvent(event)
    ensures var st, next := sys.component, Next(props, sys, event);
            && next.mounted
            && next.component.page == SelectedPage(props, st, event)
            && next.component.sortAscending == SelectedOrder(st, event)
            && next.component.increment == SelectedDirection(st, event)
            && next.component.pageData == if event.Navigate? then st.pageData else map[]
  {
  }

  /** An event that starts again has asked for its first page. */
  lemma StartReceives<T>(props: Props<T>, sys: System<T>)
    requires Inv(props, sys) && sys.mounted && sys.component.pageData == map[]
    ensures WillReceive(sys)
  {
    WillReceiveNext(props, sys);
  }

  /** A mounted component selects the page it was given, or page 0, forwards and descending. */
  lemma MountSelects<T>(props: Props<T>, startPage: Option<int>)
    ensures var sys := Mount(props, startPage);
            && sys.mounted && !sys.component.sortAscending && sys.component.increment == 1
            && sys.component.page == (match startPage case Some(page) => page case None => 0)
            && sys.component.pageData == map[] && sys.network == multiset{NextRequest(props, sys.component)}
  {
  }

  /**
   After any user event, in whatever order the answers come, the pager comes to rest with the order and the direction
   of the event. It shows the slice for the selected page if the list has it; a page past the end that was not reached
   by navigation gives way to page 0.
   */
  lemma EventShows<T(!new)>(props: Props<T>, sys: System<T>, event: Event, events: seq<Event>)
    requires Reachable(props, sys) && Enabled(sys, event) && IsUserEvent(event)
    requires var next := Next(props, sys, event);
             OnlyDeliveries(events) && IsRun(props, next, events) && Run(props, next, events).network == multiset{}
    ensures var st, end := sys.component, Run(props, Next(props, sys, event), events).component;
            var page, ascending := SelectedPage(props, st, event), SelectedOrder(st, event);
            && end.sortAscending == ascending && end.increment == SelectedDirection(st, event)
            && (page < Slots(props) ==> end.page == page)
            && (page >= Slots(props) && !event.Navigate? ==> end.page == 0)
            && (0 <= end.page < Slots(props) ==>
                  && end.page in end.pageData
                  && end.pageData[end.page] == PageOf(Displayed(props, ascending), end.page, props.Size()))
  {
    var next := Next(props, sys, event);
    ReachableInv(props, sys);
    EventSelects(props, sys, event);
    NextReachable(props, sys, event);
    ReachableInv(props, next);
    if !event.Navigate? {
      StartReceives(props, next);
    }
    DeliveriesKeepView(props, next, events);
    PagerSettlesOnPage(props, next, events);
  }

  /** The one new request of an event, if there is one. */
  function Asked<T>(props: Props<T>, next: System<T>, asks: bool): multiset<Request> {
    if asks then multiset{NextRequest(props, next.component)} else multiset{}
  }

  lemma StoredPageAsks<T>(props: Props<T>, sys: System<T>, r: Request)
    requires Inv(props, sys) && r in sys.network && Accepts(sys, r)
    ensures var next := DeliverStep(props, sys, r);
            && Navigated(next.component, next.component.page) == next.component
            && next.network == sys.network - multiset{r}
                               + Asked(props, next, next.component.isPaging && WantsMore(next.component))
  {
    assert Expected(props, sys.component, r);
    NextResponseReadsWindow(props, sys.component);
  }

  predicate WantsNext<T>(props: Props<T>, st: State<T>)
    requires st.numPages >= 0
  {
    |st.pageData| < Slots(props) && Reaches(st, st.page)
  }

  lemma WantsNextIs<T>(props: Props<T>, st: State<T>)
    requires ComponentInv(props, st) && Navigated(st, st.page) == st
    ensures st.numPages >= 0
    ensures WantsNext(props, st) <==> st.isPaging && WantsMore(st)
  {
    ReachesIsWanting(props, st, st.page);
  }

  lemma NavigationAsks<T>(props: Props<T>, sys: System<T>, pageNumber: int)
    requires Inv(props, sys)
    ensures sys.component.numPages >= 0
    ensures var next := NavigateToPage(props, sys, pageNumber);
            next.network == sys.network + Asked(props, next, WantsNext(props, next.component))
  {
    var next := NavigateToPage(props, sys, pageNumber);
    NavigateKeepsInv(props, sys, pageNumber);
    WantsNextIs(props, next.component);
    ReachesIsWanting(props, sys.component, pageNumber);
  }

  lemma DeliveryAsks<T>(props: Props<T>, sys: System<T>, r: Request)
    requires Inv(props, sys) && r in sys.network
    ensures var next := DeliverStep(props, sys, r);
            && next.component.numPages >= 0
            && next.network == sys.network - multiset{r}
                               + Asked(props, next, Accepts(sys, r) && WantsNext(props, next.component))
  {
    var next := DeliverStep(props, sys, r);
    DeliverKeepsInv(props, sys, r);
    ReachesIsWanting(props, next.component, next.component.page);
    if Accepts(sys, r) {
      StoredPageAsks(props, sys, r);
      WantsNextIs(props, next.component);
    } else {
      IgnoredDelivery(props, sys, r);
    }
  }

  lemma RestartAsks<T>(props: Props<T>, sys: System<T>, page: int, sortAscending: bool)
    ensures var next := Restart(props, sys, page, sortAscending);
            next.network == sys.network + multiset{NextRequest(props, next.component)}
  {
  }

  lemma ReverseAsks<T>(props: Props<T>, sys: System<T>)
    requires Inv(props, sys) && sys.component.numPages > 1
    ensures var next := ReverseStep(props, sys);
            next.network == sys.network + multiset{NextRequest(props, next.component)}
  {
    assert WantsMore(ReversedState(sys.component));
  }

  /**
   Nothing is fetched that is not needed: starting again asks for one page, and navigating asks for the next one
   exactly if a page is missing and the frontier of the selected page is not passed. Storing a page does the same.
   */
  lemma EventAsks<T>(props: Props<T>, sys: System<T>, event: Event)
    requires Inv(props, sys) && Enabled(sys, event) && IsUserEvent(event)
    ensures var next := Next(props, sys, event);
            && next.component.numPages >= 0
            && next.network == sys.network + Asked(props, next, !event.Navigate? || WantsNext(props, next.component))
  {
    match event
    case Navigate(pageNumber) => NavigationAsks(props, sys, pageNumber);
    case Reverse => ReverseAsks(props, sys);
    case Refresh => RestartAsks(props, sys, sys.component.page, sys.component.sortAscending);
    case Reload(startPage) =>
      RestartAsks(props, sys, if startPage.None? then 0 else startPage.value, sys.component.sortAscending);
    case SetSort(ascending) => RestartAsks(props, sys, 0, ascending);
  }
}
