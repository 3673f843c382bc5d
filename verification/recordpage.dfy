/**
 * The mutable state of the record page (`data`, `sortState`,
 * `displayedCount`, `isLoadingMore`, the English-only checkbox and the two
 * date inputs) and the handlers that update it.
 */
module RecordPage {
  import opened Wrappers
  import opened Seqs
  import opened Sorting
  import opened Calendar
  import opened DateInput
  import opened Records

  class RecordTable {
    var data: seq<Record>
    var sortState: SortState
    var displayedCount: int
    var isLoadingMore: bool
    /** The `total` a pending `loadMore` captured before its timer fires. */
    var pendingTotal: int
    var englishOnly: bool
    var startValue: string
    var endValue: string

    /**
     * The cutoff never drops below one page, and while a load is pending it
     * is below the total that load will grow it towards.
     */
    ghost predicate Valid()
      reads this
    {
      && PageSize <= displayedCount
      && (isLoadingMore ==> displayedCount < pendingTotal)
    }

    /**
     * The page as `DOMContentLoaded` leaves it before the data arrive: the
     * start input holds the date of 48 hours ago and the end input today's
     * date, both supplied by the caller in place of the clock.
     */
    constructor (checked: bool, startDay: CivilDate, today: CivilDate)
      ensures Valid()
      ensures data == [] && sortState == InitialSort
      ensures displayedCount == PageSize && !isLoadingMore
      ensures englishOnly == checked
      ensures startValue == FormatLocalDate(startDay) && endValue == FormatLocalDate(today)
    {
      data := [];
      sortState := InitialSort;
      displayedCount := PageSize;
      isLoadingMore := false;
      pendingTotal := 0;
      englishOnly := checked;
      startValue := FormatLocalDate(startDay);
      endValue := FormatLocalDate(today);
    }

    function Bounds(): Window
      reads this
    {
      WindowOf(startValue, endValue)
    }

    /** What `getFilteredSortedRows` returns in the current state. */
    function Rows(): seq<Record>
      reads this
    {
      FilteredSortedRows(data, englishOnly, Bounds(), sortState)
    }

    /** The rows `renderTable` draws: the first `displayedCount` of them. */
    function Visible(): seq<Record>
      reads this
      requires Valid()
    {
      Take(Rows(), displayedCount)
    }

    /**
     * `getFilteredSortedRows`: copy `data`, narrow it filter by filter, and
     * sort the copy in place when a key is set.
     */
    method GetFilteredSortedRows() returns (rows: seq<Record>)
      ensures rows == Rows()
    {
      rows := data;
      rows := Filter(rows, HasSponsors);
      if englishOnly {
        rows := Filter(rows, IsEnglish);
      }
      var w := WindowOf(startValue, endValue);
      if w.start.Some? || w.end.Some? {
        rows := Filter(rows, (r: Record) => InWindow(w, r.timeSubmitted));
      }
      if sortState.key != "" {
        var a := new Record[|rows|](i requires 0 <= i < |rows| => rows[i]);
        assert a[..] == rows;
        SortInPlace(a, RecordOrder(sortState.key, sortState.asc));
        rows := a[..];
      }
    }

    /** A header click: toggle the sort state and go back to the first page. */
    method ClickHeader(key: string)
      requires Valid()
      modifies this
      ensures Valid()
      ensures sortState == Toggle(old(sortState), key)
      ensures displayedCount == PageSize
      ensures data == old(data) && englishOnly == old(englishOnly)
      ensures startValue == old(startValue) && endValue == old(endValue)
      ensures isLoadingMore == old(isLoadingMore) && pendingTotal == old(pendingTotal)
    {
      if sortState.key == key {
        sortState := sortState.(asc := !sortState.asc);
      } else {
        sortState := SortState(key, true);
      }
      displayedCount := PageSize;
    }

    /**
     * `loadData`'s completion. `None` is a response whose handling throws
     * (a failed fetch, a top-level value that is not an array, a `null`
     * element): the `.catch` only writes a message, so no field changes.
     * Otherwise every item is normalised and the cutoff resets.
     */
    method LoadData(json: Option<seq<Item>>)
      requires Valid()
      modifies this
      ensures Valid()
      ensures json.Some? ==> data == NormalizeAll(json.value) && displayedCount == PageSize
      ensures json.None? ==> data == old(data) && displayedCount == old(displayedCount)
      ensures sortState == old(sortState) && englishOnly == old(englishOnly)
      ensures startValue == old(startValue) && endValue == old(endValue)
      ensures isLoadingMore == old(isLoadingMore) && pendingTotal == old(pendingTotal)
    {
      if json.Some? {
        data := NormalizeAll(json.value);
        displayedCount := PageSize;
      }
    }

    /** The checkbox's change handler. */
    method SetEnglishOnly(checked: bool)
      requires Valid()
      modifies this
      ensures Valid()
      ensures englishOnly == checked
      ensures displayedCount == PageSize
      ensures data == old(data) && sortState == old(sortState)
      ensures startValue == old(startValue) && endValue == old(endValue)
      ensures isLoadingMore == old(isLoadingMore) && pendingTotal == old(pendingTotal)
    {
      englishOnly := checked;
      displayedCount := PageSize;
    }

    /** The start input's change handler. */
    method SetStart(v: string)
      requires Valid()
      modifies this
      ensures Valid()
      ensures startValue == v
      ensures displayedCount == PageSize
      ensures data == old(data) && sortState == old(sortState) && englishOnly == old(englishOnly)
      ensures endValue == old(endValue)
      ensures isLoadingMore == old(isLoadingMore) && pendingTotal == old(pendingTotal)
    {
      startValue := v;
      displayedCount := PageSize;
    }

    /** The end input's change handler. */
    method SetEnd(v: string)
      requires Valid()
      modifies this
      ensures Valid()
      ensures endValue == v
      ensures displayedCount == PageSize
      ensures data == old(data) && sortState == old(sortState) && englishOnly == old(englishOnly)
      ensures startValue == old(startValue)
      ensures isLoadingMore == old(isLoadingMore) && pendingTotal == old(pendingTotal)
    {
      endValue := v;
      displayedCount := PageSize;
    }

    /**
     * The synchronous half of `loadMore`: nothing happens while a load is
     * pending or once every row is shown; otherwise the guard is set and the
     * current total is captured.
     */
    method BeginLoad() returns (started: bool)
      requires Valid()
      modifies this
      ensures Valid()
      ensures started <==> !old(isLoadingMore) && old(displayedCount) < |Rows()|
      ensures started ==> isLoadingMore && pendingTotal == |Rows()|
      ensures !started ==> isLoadingMore == old(isLoadingMore) && pendingTotal == old(pendingTotal)
      ensures displayedCount == old(displayedCount)
      ensures data == old(data) && sortState == old(sortState) && englishOnly == old(englishOnly)
      ensures startValue == old(startValue) && endValue == old(endValue)
    {
      if isLoadingMore {
        return false;
      }
      var rows := GetFilteredSortedRows();
      var total := |rows|;
      if displayedCount >= total {
        return false;
      }
      isLoadingMore := true;
      pendingTotal := total;
      started := true;
    }

    /**
     * The timer callback of `loadMore`: grow the cutoff by a page, capped at
     * the captured total, and clear the guard.
     */
    method CompleteLoad()
      requires Valid() && isLoadingMore
      modifies this
      ensures Valid() && !isLoadingMore
      ensures displayedCount == Min(old(displayedCount) + PageSize, pendingTotal)
      ensures old(displayedCount) < displayedCount <= pendingTotal
      ensures pendingTotal == old(pendingTotal)
      ensures data == old(data) && sortState == old(sortState) && englishOnly == old(englishOnly)
      ensures startValue == old(startValue) && endValue == old(endValue)
    {
      displayedCount := Min(displayedCount + PageSize, pendingTotal);
      isLoadingMore := false;
    }

    /**
     * A `loadMore` whose timer fires before any other event: the cutoff takes
     * one `NextCount` step towards the number of filtered rows.
     */
    method LoadMore()
      requires Valid()
      modifies this
      ensures Valid()
      ensures !old(isLoadingMore) ==> !isLoadingMore && displayedCount == NextCount(old(displayedCount), |Rows()|)
      ensures old(isLoadingMore) ==> isLoadingMore && displayedCount == old(displayedCount)
      ensures !old(isLoadingMore) && old(displayedCount) < |Rows()| ==> pendingTotal == |Rows()|
      ensures old(isLoadingMore) || old(displayedCount) >= |Rows()| ==> pendingTotal == old(pendingTotal)
      ensures data == old(data) && sortState == old(sortState) && englishOnly == old(englishOnly)
      ensures startValue == old(startValue) && endValue == old(endValue)
    {
      var started := BeginLoad();
      if started {
        CompleteLoad();
      }
    }

    /**
     * `renderTable`'s rows and its status line: the visible rows and the
     * number of filtered rows, which the visible count never exceeds.
     */
    method Render() returns (visible: seq<Record>, total: int)
      requires Valid()
      ensures visible == Visible()
      ensures total == |Rows()|
      ensures |visible| == Min(displayedCount, total) <= total
    {
      var rows := GetFilteredSortedRows();
      visible := if displayedCount < |rows| then rows[..displayedCount] else rows;
      total := |rows|;
    }

    /**
     * The download handler: one object per filtered and sorted row, in
     * order, whatever the cutoff.
     */
    method Export() returns (out: seq<ExportRow>)
      ensures out == Map(Rows(), ExportOf)
      ensures |out| == |Rows()|
    {
      var rows := GetFilteredSortedRows();
      out := Map(rows, ExportOf);
    }
  }
}
