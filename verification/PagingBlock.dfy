/** Which page buttons web/js/pagination/paging-block.js renders. */
module PagingBlock {
  const NUM_PAGES_EACH_SIDE := 3

  datatype EllipsisFlags = EllipsisFlags(first: bool, second: bool)

  datatype Window = Window(start: int, count: int)

  function CalculateEllipsisFlags(numPages: int, currentPage: int): EllipsisFlags {
    var ellipsisNeeded := numPages > 2 * NUM_PAGES_EACH_SIDE + 1;
    EllipsisFlags(
      ellipsisNeeded && currentPage - 0 > NUM_PAGES_EACH_SIDE,
      ellipsisNeeded && numPages - 1 - currentPage > NUM_PAGES_EACH_SIDE)
  }

  /** The numbered buttons between the two ellipses. */
  method InteriorButtons(numPages: int, pageNumber: int) returns (window: Window)
    ensures window == InteriorWindow(numPages, pageNumber)
  {
    var flags := CalculateEllipsisFlags(numPages, pageNumber);
    var interiorPagesStartIndex, numInteriorButtons := 0, 0;
    if flags.first && flags.second {
      interiorPagesStartIndex := pageNumber - 1;
      numInteriorButtons := 3;
    } else if flags.first {
      interiorPagesStartIndex := numPages - 1 - NUM_PAGES_EACH_SIDE - 1;
      numInteriorButtons := NUM_PAGES_EACH_SIDE + 1;
    } else if flags.second {
      interiorPagesStartIndex := 1;
      numInteriorButtons := NUM_PAGES_EACH_SIDE + 1;
    } else {
      numInteriorButtons := numPages;
    }
    window := Window(interiorPagesStartIndex, numInteriorButtons);
  }

  /**
   The same window stated without branches on flags: all pages when at most seven exist,
   otherwise the block around the current page pushed inside the list.
   */
  function InteriorWindow(numPages: int, pageNumber: int): Window {
    if numPages <= 7 then Window(0, numPages)
    else if pageNumber <= 3 then Window(1, 4)
    else if pageNumber >= numPages - 4 then Window(numPages - 5, 4)
    else Window(pageNumber - 1, 3)
  }

  predicate InWindow(window: Window, i: int) {
    window.start <= i < window.start + window.count
  }

  /**
   No button leads outside the list, whatever page is selected, and an existing page always has a button: its
   own, or First or Last.
   */
  lemma ButtonsStayInRange(numPages: nat, pageNumber: int)
    ensures forall i :: InWindow(InteriorWindow(numPages, pageNumber), i) ==> 0 <= i < numPages
    ensures 0 <= pageNumber < numPages ==>
              InWindow(InteriorWindow(numPages, pageNumber), pageNumber) || pageNumber == 0
                || pageNumber == numPages - 1
  {
  }
}
