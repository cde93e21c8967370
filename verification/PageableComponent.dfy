/**
 The component of web/js/pagination/make-pageable.js, whose `state` is updated in place.
 Each method is one event; it refines the step of PagerMachine and keeps the invariant.
 */
module PageableComponent {
  import opened Sequences
  import opened ArrayPaging
  import opened PagingBlock
  import opened PagerMachine
  import opened PagerInvariant

  class Pageable<T> {
    const props: Props<T>
    var state: State<T>
    var isMounted: bool
    ghost var network: multiset<Request>  // sent and not answered yet

    ghost function Snapshot(): System<T>
      reads this
    {
      System(state, isMounted, network)
    }

    ghost predicate Valid()
      reads this
    {
      Inv(props, Snapshot())
    }

    constructor (props: Props<T>, startPage: Option<int>)
      ensures this.props == props && !isMounted && network == multiset{}
      ensures state == InitialPagingState(if startPage.None? then 0 else startPage.value, 0, false)
    {
      this.props := props;
      state := InitialPagingState(if startPage.None? then 0 else startPage.value, 0, false);
      isMounted := false;
      network := multiset{};
    }

    method ComponentDidMount(startPage: Option<int>)
      requires state == InitialPagingState(if startPage.None? then 0 else startPage.value, 0, false)
                 && network == multiset{}
      modifies this
      ensures Valid() && isMounted && Snapshot() == Mount(props, startPage)
    {
      MountEstablishesInv(props, startPage);
      isMounted := true;
      Restart(if startPage.None? then 0 else startPage.value, state.sortAscending);
    }

    method ComponentWillUnmount()
      requires Valid() && isMounted
      modifies this`isMounted
      ensures Valid() && Snapshot() == Next(props, old(Snapshot()), Unmount)
    {
      NextKeepsInv(props, Snapshot(), Unmount);
      isMounted := false;
    }

    /** Everything but the sort order starts again, under a nonce no outstanding request carries. */
    method ResetState(page: int)
      modifies this`state
      ensures state == InitialPagingState(page, old(state).pagingNonce + 1, old(state).sortAscending)
    {
      state := InitialPagingState(page, state.pagingNonce + 1, state.sortAscending);
    }

    method FillPage(index: int)
      modifies this`network
      ensures network == old(network) + multiset{PagerMachine.FillPage(props, state, index)}
    {
      var pageWithBefore := GetPageWithBefore(state);
      var paging := if pageWithBefore then Paging(state.before, Undefined) else Paging(Undefined, state.after);
      var normalPageSize := if props.pageSize == 0 then 20 else props.pageSize;
      var remainder := if state.numResults.None? then 0 else state.numResults.value % normalPageSize;
      var limit := normalPageSize;
      if state.increment == -1 && index == state.numPages - 1 && remainder != 0 {
        limit := remainder;
      }
      network := network + multiset{Request(paging, limit, GetAscending(state), index, state.pagingNonce)};
    }

    method KickPaging(nonce: nat)
      modifies this`network
      ensures Snapshot() == Kick(props, old(Snapshot()), nonce)
    {
      if state.isPaging && nonce == state.pagingNonce {
        var numItemsLoaded := |state.pageData|;
        var pageToFill := if state.increment == 1 then numItemsLoaded else state.numPages - 1 - numItemsLoaded;
        var continueKicking := state.farthestPage.None? || state.farthestPage.value == 0;
        if !continueKicking {
          continueKicking :=
            if state.increment == 1 then pageToFill <= state.farthestPage.value
              else pageToFill >= state.farthestPage.value;
        }
        if continueKicking {
          FillPage(pageToFill);
        }
      }
    }

    /** The callback of one request, run when its response arrives, perhaps after unmounting. */
    method ReceivePage(request: Request, response: Response<T>)
      requires Valid() && request in network
      requires response == ArrayPager(props.list, request.paging, At(request.limit))
      modifies this
      ensures Valid() && Snapshot() == Next(props, old(Snapshot()), Deliver(request))
    {
      NextKeepsInv(props, Snapshot(), Deliver(request));
      FailsOnlyOnNegativeLimit(props.list, request.paging, At(request.limit));
      network := network - multiset{request};
      AcceptResponse(request, response);
    }

    /** The guarded state update, and the kick that follows it. */
    method AcceptResponse(request: Request, response: Response<T>)
      requires response.Page?
      modifies this`state, this`network
      ensures Snapshot() == PagerMachine.ReceivePage(props, old(Snapshot()), request, response)
    {
      if isMounted && state.pagingNonce == request.nonce && request.index !in state.pageData {
        StoreResponse(request.index, response);
        KickPaging(request.nonce);
      }
    }

    /** The updater `_receivePage` hands to `setState`: it rewrites the previous state field by field. */
    method StoreResponse(index: int, response: Response<T>)
      requires response.Page?
      modifies this`state
      ensures state == StorePage(props, old(state), index, response)
    {
      var pageWithBefore := GetPageWithBefore(state);
      state := state.(pageData :=
        state.pageData[index := if state.increment == 1 then response.data else Sequences.Reverse(response.data)]);
      state := state.(after := response.paging.after);
      state := state.(before := response.paging.before);
      state := state.(numPages := NumPages(response.count, props.Size()));
      if state.numPages >= 0 && state.page >= state.numPages {
        state := state.(page := 0);
      }
      state := state.(numResults := Some(response.count));
      state := state.(isPaging := if pageWithBefore then Truthy(state.before) else Truthy(state.after));
      state := state.(farthestPage := Some(CalculateFarthestPage(state.page, state.numPages, state.increment)));
    }

    method NavigateToPage(pageNumber: int)
      requires Valid() && isMounted
      modifies this
      ensures Valid() && Snapshot() == Next(props, old(Snapshot()), Navigate(pageNumber))
    {
      NextKeepsInv(props, Snapshot(), Navigate(pageNumber));
      state := state.(
        page := pageNumber,
        farthestPage := Some(CalculateFarthestPage(pageNumber, state.numPages, state.increment)));
      KickPaging(state.pagingNonce);
    }

    /** A reset under the given sort order, and the kick its callback gives. */
    method Restart(page: int, sortAscending: bool)
      modifies this
      ensures Snapshot() == PagerMachine.Restart(props, old(Snapshot()), page, sortAscending)
    {
      state := state.(sortAscending := sortAscending);
      ResetState(page);
      KickPaging(state.pagingNonce);
    }

    method ReloadPages(startPage: Option<int>)
      requires Valid() && isMounted
      modifies this
      ensures Valid() && Snapshot() == Next(props, old(Snapshot()), Reload(startPage))
    {
      NextKeepsInv(props, Snapshot(), Reload(startPage));
      Restart(if startPage.None? then 0 else startPage.value, state.sortAscending);
    }

    method RefreshPage()
      requires Valid() && isMounted
      modifies this
      ensures Valid() && Snapshot() == Next(props, old(Snapshot()), Refresh)
    {
      NextKeepsInv(props, Snapshot(), Refresh);
      Restart(state.page, state.sortAscending);
    }

    method SetSortAscending(ascending: bool)
      requires Valid() && isMounted
      modifies this
      ensures Valid() && Snapshot() == Next(props, old(Snapshot()), SetSort(ascending))
    {
      NextKeepsInv(props, Snapshot(), SetSort(ascending));
      Restart(0, ascending);
    }

    /** The state update of `_reverse` and the kick its callback gives. */
    method RestartReversed()
      modifies this
      ensures Snapshot() == ReverseStep(props, old(Snapshot()))
    {
      var prevState := state;
      var newIncrement := -prevState.increment;
      var newPage := if newIncrement == 1 then 0 else prevState.numPages - 1;
      ResetState(newPage);
      state := state.(
        increment := newIncrement,
        numPages := prevState.numPages,
        farthestPage := Some(CalculateFarthestPage(newPage, prevState.numPages, newIncrement)),
        numResults := prevState.numResults);
      KickPaging(state.pagingNonce);
    }

    method ReversePaging()
      requires Valid() && isMounted && state.numPages > 1
      modifies this
      ensures Valid() && Snapshot() == Next(props, old(Snapshot()), Reverse)
    {
      NextKeepsInv(props, Snapshot(), Reverse);
      RestartReversed();
    }
  }
}
