/** `exhaustivelyPage` of web/js/net/paging.js: fetch page after page, then report the whole list once. */
module ExhaustivePaging {
  import opened Sequences
  import opened ArrayPaging

  /** Where a call stands: a request is out, or one of the callbacks ran, or the call was dropped. */
  datatype Outcome<T> =
    | Waiting(soFar: seq<T>, marker: Marker)
    | Succeeded(data: seq<T>)
    | Errored
    | Dropped

  function RequestFor(ascending: bool, marker: Marker): Paging {
    if ascending then Paging(Undefined, marker) else Paging(marker, Undefined)
  }

  function GetMarker(ascending: bool, paging: Paging): Marker {
    if ascending then paging.after else paging.before
  }

  /** The callbacks of one fetch. */
  function OnResponse<T>(soFar: seq<T>, ascending: bool, response: Response<T>, cancelled: bool): Outcome<T> {
    match response
    case Failure => if cancelled then Dropped else Errored
    case Page(_, pageData, paging) =>
      var data := soFar + pageData;
      var nextMarker := GetMarker(ascending, paging);
      if cancelled then Dropped
      else if nextMarker.At? then Waiting(data, nextMarker)
      else Succeeded(data)
  }

  /**
   The call after `k` responses. The server may answer the i-th request any way it likes, and
   `cancelled(i)` is the monitor's flag when that answer arrives.
   */
  function After<T>(server: (nat, Paging) -> Response<T>, ascending: bool, cancelled: nat -> bool, k: nat): Outcome<T> {
    if k == 0 then Waiting([], Null)
    else
      match After(server, ascending, cancelled, k - 1)
      case Waiting(soFar, marker) =>
        OnResponse(soFar, ascending, server(k - 1, RequestFor(ascending, marker)), cancelled(k - 1))
      case done => done
  }

  function ListServer<T>(list: seq<T>, limit: Marker): (nat, Paging) -> Response<T> {
    (i, paging) => ArrayPager(list, paging, limit)
  }

  function Never(): nat -> bool {
    i => false
  }

  // ---------- Over the list server ----------

  function PageSize<T>(list: seq<T>, limit: Marker): int {
    Coalesce(limit, |list|)
  }

  /**
   Another request goes out after k of them. Ascending, the marker 0 of an exactly filled list costs one empty
   page more.
   */
  predicate AsksAgain(length: nat, size: nat, ascending: bool, k: nat) {
    k == 0 || (if ascending then Offset(k, size) <= length else Offset(k, size) < length)
  }

  lemma WindowsJoin<T>(stream: seq<T>, lo: nat, hi: nat)
    requires lo <= hi <= |stream|
    ensures stream[..lo] + stream[lo..hi] == stream[..hi]
    ensures hi == |stream| ==> stream[..hi] == stream
  {
  }

  /** A marker that resumes with more to come is a position; ascending, position 0 comes once more. */
  predicate MoreToCome(length: nat, size: nat, ascending: bool, consumed: nat) {
    if ascending then consumed + size <= length else consumed + size < length
  }

  /** The call has read so much of the stream and waits at the marker behind it. */
  ghost predicate HasRead<T>(list: seq<T>, ascending: bool, call: Outcome<T>, consumed: nat) {
    && consumed <= |list|
    && call.Waiting? && call.soFar == Stream(list, !ascending)[..consumed]
    && ResumesAt(RequestFor(ascending, call.marker), !ascending, consumed, |list|)
  }

  /** One more page: further along the stream, or all of it. */
  ghost predicate ReadsOn<T>(list: seq<T>, size: nat, ascending: bool, consumed: nat, call: Outcome<T>) {
    if MoreToCome(|list|, size, ascending, consumed) then HasRead(list, ascending, call, consumed + size)
    else call == Succeeded(Stream(list, !ascending))
  }

  /** One fetch extends what has arrived by one page of the stream, or completes it. */
  lemma OneMorePage<T>(list: seq<T>, limit: Marker, ascending: bool, consumed: nat, marker: Marker)
    requires PageSize(list, limit) > 0
    requires HasRead(list, ascending, Waiting(Stream(list, !ascending)[..Min(consumed, |list|)], marker), consumed)
    ensures var response := ArrayPager(list, RequestFor(ascending, marker), limit);
            var call := OnResponse(Stream(list, !ascending)[..consumed], ascending, response, false);
            ReadsOn(list, PageSize(list, limit), ascending, consumed, call)
  {
    var size, request := PageSize(list, limit), RequestFor(ascending, marker);
    assert ArrayPager(list, request, limit) == ArrayPager(list, request, At(size));
    ServesNextWindow(list, request, !ascending, consumed, size);
    WindowsJoin(Stream(list, !ascending), consumed, Min(consumed + size, |list|));
  }

  /** Every answer of the server reads on in the list. */
  ghost predicate ReadsList<T(!new)>(server: (nat, Paging) -> Response<T>, list: seq<T>, size: nat, ascending: bool) {
    forall i: nat, call: Outcome<T>, consumed: nat :: HasRead(list, ascending, call, consumed) ==>
      var response := server(i, RequestFor(ascending, call.marker));
      ReadsOn(list, size, ascending, consumed, OnResponse(call.soFar, ascending, response, false))
  }

  lemma ListServerReadsList<T(!new)>(list: seq<T>, limit: Marker, ascending: bool)
    requires PageSize(list, limit) > 0
    ensures ReadsList(ListServer(list, limit), list, PageSize(list, limit), ascending)
  {
    forall call: Outcome<T>, consumed: nat | HasRead(list, ascending, call, consumed)
      ensures var response := ArrayPager(list, RequestFor(ascending, call.marker), limit);
              ReadsOn(list, PageSize(list, limit), ascending, consumed,
                OnResponse(call.soFar, ascending, response, false))
    {
      OneMorePage(list, limit, ascending, consumed, call.marker);
    }
  }

  lemma AsksWhileMore(length: nat, size: nat, ascending: bool, k: nat)
    requires k > 0
    ensures AsksAgain(length, size, ascending, k) <==> MoreToCome(length, size, ascending, Offset(k - 1, size))
    ensures k > 1 && AsksAgain(length, size, ascending, k) ==> AsksAgain(length, size, ascending, k - 1)
  {
  }

  lemma {:induction false} AnswersReadOn<T(!new)>(
    server: (nat, Paging) -> Response<T>, list: seq<T>, size: nat, ascending: bool, k: nat)
    requires ReadsList(server, list, size, ascending)
    ensures var call := After(server, ascending, Never(), k);
            if AsksAgain(|list|, size, ascending, k) then HasRead(list, ascending, call, Offset(k, size))
            else call == Succeeded(Stream(list, !ascending))
  {
    if k > 0 {
      AnswersReadOn(server, list, size, ascending, k - 1);
      AsksWhileMore(|list|, size, ascending, k);
      var call := After(server, ascending, Never(), k - 1);
      if AsksAgain(|list|, size, ascending, k - 1) {
        assert HasRead(list, ascending, call, Offset(k - 1, size));
      }
    }
  }

  lemma PagesArriveInOrder<T(!new)>(list: seq<T>, limit: Marker, ascending: bool, k: nat)
    requires PageSize(list, limit) > 0
    ensures var size := PageSize(list, limit);
            var call := After(ListServer(list, limit), ascending, Never(), k);
            if AsksAgain(|list|, size, ascending, k) then
              && call.Waiting? && Offset(k, size) <= |list|
              && call.soFar == Stream(list, !ascending)[..Offset(k, size)]
              && ResumesAt(RequestFor(ascending, call.marker), !ascending, Offset(k, size), |list|)
            else
              call == Succeeded(Stream(list, !ascending))
  {
    ListServerReadsList(list, limit, ascending);
    AnswersReadOn(ListServer(list, limit), list, PageSize(list, limit), ascending, k);
  }

  lemma {:induction false} OffsetReaches(k: nat, size: nat)
    requires size > 0
    ensures Offset(k, size) >= k
  {
    if k > 0 {
      OffsetReaches(k - 1, size);
    }
  }

  /** A finished call stays finished: no callback runs twice, and none runs after the other. */
  lemma {:induction false} FinishedStaysFinished<T>(
    server: (nat, Paging) -> Response<T>, ascending: bool, cancelled: nat -> bool, k: nat, later: nat)
    requires k <= later && !After(server, ascending, cancelled, k).Waiting?
    ensures After(server, ascending, cancelled, later) == After(server, ascending, cancelled, k)
    decreases later - k
  {
    if k < later {
      FinishedStaysFinished(server, ascending, cancelled, k, later - 1);
    }
  }

  /** With a positive page size the call ends, and what it reports is the list, or its reverse when ascending. */
  lemma ReportsWholeList<T(!new)>(list: seq<T>, limit: Marker, ascending: bool)
    requires PageSize(list, limit) > 0
    ensures forall k | |list| + 1 <= k :: After(ListServer(list, limit), ascending, Never(), k)
              == Succeeded(if ascending then Reverse(list) else list)
    ensures forall k :: After(ListServer(list, limit), ascending, Never(), k).Waiting?
              || After(ListServer(list, limit), ascending, Never(), k)
                   == Succeeded(if ascending then Reverse(list) else list)
  {
    forall k | |list| + 1 <= k
      ensures After(ListServer(list, limit), ascending, Never(), k)
                == Succeeded(if ascending then Reverse(list) else list)
    {
      OffsetReaches(k, PageSize(list, limit));
      PagesArriveInOrder(list, limit, ascending, k);
    }
    forall k
      ensures After(ListServer(list, limit), ascending, Never(), k).Waiting?
              || After(ListServer(list, limit), ascending, Never(), k)
                   == Succeeded(if ascending then Reverse(list) else list)
    {
      PagesArriveInOrder(list, limit, ascending, k);
    }
  }

  ghost predicate Ends<T>(list: seq<T>, limit: Marker, ascending: bool) {
    exists k :: !After(ListServer(list, limit), ascending, Never(), k).Waiting?
  }

  /** A page size of zero asks for the same empty page for ever, unless the list is empty and read with `before`. */
  lemma {:induction false} ZeroPageSizeStalls<T>(list: seq<T>, limit: Marker, ascending: bool, k: nat)
    requires PageSize(list, limit) == 0 && (list != [] || ascending)
    ensures var call := After(ListServer(list, limit), ascending, Never(), k);
            call.Waiting? && call.soFar == [] && ResumesAt(RequestFor(ascending, call.marker), !ascending, 0, |list|)
  {
    if k > 0 {
      ZeroPageSizeStalls(list, limit, ascending, k - 1);
      var call := After(ListServer(list, limit), ascending, Never(), k - 1);
      var request := RequestFor(ascending, call.marker);
      assert ArrayPager(list, request, limit) == ArrayPager(list, request, At(0));
      ServesNextWindow(list, request, !ascending, 0, 0);
    }
  }

  /** Exactly when the call ends. */
  lemma EndsExactly<T(!new)>(list: seq<T>, limit: Marker, ascending: bool)
    ensures Ends(list, limit, ascending) <==> PageSize(list, limit) != 0 || (list == [] && !ascending)
  {
    var size := PageSize(list, limit);
    if size > 0 {
      ReportsWholeList(list, limit, ascending);
      assert !After(ListServer(list, limit), ascending, Never(), |list| + 1).Waiting?;
    } else if size < 0 || (list == [] && !ascending) {
      assert !After(ListServer(list, limit), ascending, Never(), 1).Waiting?;
    } else {
      forall k ensures After(ListServer(list, limit), ascending, Never(), k).Waiting? {
        ZeroPageSizeStalls(list, limit, ascending, k);
      }
    }
  }

  // ---------- Any server ----------

  /**
   Against any server: an answer that comes uncancelled runs error for a failure and success for a page without a
   marker, each for good and with all that was collected, and otherwise the call goes on from the marker of its
   direction.
   */
  lemma AnswerDecides<T>(
    server: (nat, Paging) -> Response<T>, ascending: bool, cancelled: nat -> bool, k: nat, later: nat)
    requires k < later && After(server, ascending, cancelled, k).Waiting? && !cancelled(k)
    ensures var call := After(server, ascending, cancelled, k);
            var response :=
              server(k, if ascending then Paging(Undefined, call.marker) else Paging(call.marker, Undefined));
            match response
            case Failure => After(server, ascending, cancelled, later) == Errored
            case Page(_, data, paging) =>
              var marker := if ascending then paging.after else paging.before;
              if marker.At? then After(server, ascending, cancelled, k + 1) == Waiting(call.soFar + data, marker)
              else After(server, ascending, cancelled, later) == Succeeded(call.soFar + data)
  {
    if !After(server, ascending, cancelled, k + 1).Waiting? {
      FinishedStaysFinished(server, ascending, cancelled, k + 1, later);
    }
  }

  // ---------- Cancellation ----------

  /** Against any server at all: once cancelled with a request out, neither callback ever runs. */
  lemma CancelledCallIsDropped<T>(
    server: (nat, Paging) -> Response<T>, ascending: bool, cancelled: nat -> bool, k: nat, later: nat)
    requires k < later && After(server, ascending, cancelled, k).Waiting? && cancelled(k)
    ensures After(server, ascending, cancelled, later) == Dropped
  {
    assert After(server, ascending, cancelled, k + 1) == Dropped;
    FinishedStaysFinished(server, ascending, cancelled, k + 1, later);
  }
}
