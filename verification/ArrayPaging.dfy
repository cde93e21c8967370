/**
 The list server of web/js/net/list.js: a page of an array, addressed by a
 `before` or an `after` marker, together with the marker of the page that follows.
 */
module ArrayPaging {
  import opened Sequences

  /** A marker as JavaScript sees it: an absent key, a null, or a position. */
  datatype Marker = Undefined | Null | At(pos: int)

  datatype Paging = Paging(before: Marker, after: Marker)

  datatype Response<T> = Failure | Page(count: nat, data: seq<T>, paging: Paging)

  function Coalesce(m: Marker, default: int): int {
    if m.At? then m.pos else default
  }

  /** `Array.prototype.slice` clamps, and counts a negative bound from the end. */
  function SliceBound(k: int, length: nat): nat {
    if k < 0 then Max(length + k, 0) else Min(k, length)
  }

  function JsSlice<T>(list: seq<T>, start: int, end: int): seq<T> {
    var lo, hi := SliceBound(start, |list|), SliceBound(end, |list|);
    if lo < hi then list[lo..hi] else []
  }

  function ArrayPager<T>(list: seq<T>, paging: Paging, limit: Marker): Response<T> {
    var pageSize := Coalesce(limit, |list|);
    if pageSize < 0 then
      Failure
    else if paging.after.Undefined? then
      var before := Coalesce(paging.before, 0);
      var nextPage := before + pageSize;
      var newBefore := if nextPage < |list| then At(nextPage) else Null;
      Page(|list|, JsSlice(list, before, Coalesce(newBefore, |list|)), Paging(newBefore, Undefined))
    else
      var after := Coalesce(paging.after, |list|);
      var prevPage := after - pageSize;
      var newAfter := if prevPage >= 0 then At(prevPage) else Null;
      Page(|list|, Reverse(JsSlice(list, Coalesce(newAfter, 0), after)), Paging(Undefined, newAfter))
  }

  /** The order in which entries arrive: `before` markers walk the list, `after` markers walk it backwards. */
  function Stream<T>(list: seq<T>, withBefore: bool): seq<T> {
    if withBefore then list else Reverse(list)
  }

  /** The marker pair asks for the entries that follow the first `consumed` ones of the stream. */
  predicate ResumesAt(paging: Paging, withBefore: bool, consumed: int, length: nat) {
    if withBefore then
      paging.after == Undefined && Coalesce(paging.before, 0) == consumed
    else
      paging.after != Undefined && Coalesce(paging.after, length) == length - consumed
  }

  lemma WindowOfSlice<T>(list: seq<T>, start: nat, end: nat)
    requires start <= end <= |list|
    ensures JsSlice(list, start, end) == list[start..end]
  {
  }

  /** Read with `before`: the window that starts at the marker. */
  lemma ServesForwards<T>(list: seq<T>, paging: Paging, consumed: nat, limit: nat)
    requires consumed <= |list| && ResumesAt(paging, true, consumed, |list|)
    ensures ArrayPager(list, paging, At(limit))
         == Page(|list|, list[consumed..Min(consumed + limit, |list|)],
                 Paging(if consumed + limit < |list| then At(consumed + limit) else Null, Undefined))
  {
    WindowOfSlice(list, consumed, Min(consumed + limit, |list|));
  }

  /** Read with `after`: the window that ends at the marker, backwards. */
  lemma ServesBackwards<T>(list: seq<T>, paging: Paging, consumed: nat, limit: nat)
    requires consumed <= |list| && ResumesAt(paging, false, consumed, |list|)
    ensures ArrayPager(list, paging, At(limit))
         == Page(|list|, Reverse(list[|list| - Min(consumed + limit, |list|)..|list| - consumed]),
                 Paging(Undefined, if consumed + limit <= |list| then At(|list| - consumed - limit) else Null))
  {
    WindowOfSlice(list, |list| - Min(consumed + limit, |list|), |list| - consumed);
  }

  /**
   In either direction the server reads the next window of one stream, and its
   marker resumes where the window ends: no entry is skipped or repeated.
   */
  lemma ServesNextWindow<T>(list: seq<T>, paging: Paging, withBefore: bool, consumed: nat, limit: nat)
    requires consumed <= |list|
    requires ResumesAt(paging, withBefore, consumed, |list|)
    ensures var r, upTo := ArrayPager(list, paging, At(limit)), Min(consumed + limit, |list|);
            && r.Page? && r.count == |list|
            && r.data == Stream(list, withBefore)[consumed..upTo]
            && (withBefore ==>
                  r.paging == Paging(if consumed + limit < |list| then At(consumed + limit) else Null, Undefined))
            && (!withBefore ==>
                  r.paging == Paging(Undefined, if consumed + limit <= |list|
                    then At(|list| - consumed - limit) else Null))
            && (consumed + limit < |list| ==> ResumesAt(r.paging, withBefore, consumed + limit, |list|))
  {
    if withBefore {
      ServesForwards(list, paging, consumed, limit);
    } else {
      ServesBackwards(list, paging, consumed, limit);
      ReverseWindow(list, consumed, Min(consumed + limit, |list|));
    }
  }

  /** Markers the source never issues itself still give a response, and only a negative limit is an error. */
  lemma FailsOnlyOnNegativeLimit<T>(list: seq<T>, paging: Paging, limit: Marker)
    ensures ArrayPager(list, paging, limit).Failure? <==> limit.At? && limit.pos < 0
  {
  }
}
