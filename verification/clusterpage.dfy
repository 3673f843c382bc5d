/**
 * The mutable state of the cluster page (`clustersData`, `sortState`, the
 * English-only checkbox and the two date inputs) and the handlers that read
 * and update it.
 */
module ClusterPage {
  import opened Wrappers
  import opened Seqs
  import opened Sorting
  import opened Calendar
  import opened DateInput
  import opened Clusters

  class ClusterTable {
    var clustersData: Json
    var sortState: ClusterSort
    var englishOnly: bool
    var startValue: string
    var endValue: string

    /**
     * The page as `DOMContentLoaded` leaves it before the data arrive: no
     * clusters, sorted by count descending, and the date inputs holding the
     * date of 48 hours ago and today's date, supplied by the caller.
     */
    constructor (checked: bool, startDay: CivilDate, today: CivilDate)
      ensures clustersData == JArray([]) && sortState == InitialClusterSort
      ensures englishOnly == checked
      ensures startValue == FormatLocalDate(startDay) && endValue == FormatLocalDate(today)
    {
      clustersData := JArray([]);
      sortState := InitialClusterSort;
      englishOnly := checked;
      startValue := FormatLocalDate(startDay);
      endValue := FormatLocalDate(today);
    }

    /** The rows both handlers derive in the current state, if `clustersData` lets them. */
    function View(): Option<seq<Cluster>>
      reads this
    {
      var rows := ClusterRows(clustersData);
      if rows.Some? then Some(DerivedRows(rows.value, englishOnly, WindowOf(startValue, endValue), sortState)) else None
    }

    /** `setSort`. */
    method SetSort(key: ClusterKey)
      modifies this
      ensures sortState == NextSort(old(sortState), key)
      ensures clustersData == old(clustersData) && englishOnly == old(englishOnly)
      ensures startValue == old(startValue) && endValue == old(endValue)
    {
      if sortState.key == key {
        sortState := sortState.(dir := if sortState.dir == Asc then Desc else Asc);
      } else {
        sortState := ClusterSort(key, if key == Count then Desc else Asc);
      }
    }

    /** A click on header `idx`. */
    method ClickHeader(idx: nat)
      modifies this
      ensures sortState == NextSort(old(sortState), HeaderKey(idx))
      ensures clustersData == old(clustersData) && englishOnly == old(englishOnly)
      ensures startValue == old(startValue) && endValue == old(endValue)
    {
      var key := if idx == 0 then Domain else if idx == 1 then Count else Links;
      SetSort(key);
    }

    /** `loadClusters` once the JSON has arrived: store what the envelope yields. */
    method LoadClusters(json: Json)
      modifies this
      ensures Envelope(json).Some? ==> clustersData == Envelope(json).value
      ensures Envelope(json).None? ==> clustersData == old(clustersData)
      ensures sortState == old(sortState) && englishOnly == old(englishOnly)
      ensures startValue == old(startValue) && endValue == old(endValue)
    {
      if json.JArray? {
        clustersData := json;
      } else if json.JNull? {
        // Reading `.clusters` of null throws before anything is stored.
      } else if HasTruthy(json, "clusters") {
        clustersData := json.fields["clusters"];
      } else if HasTruthy(json, "results") {
        clustersData := json.fields["results"];
      } else {
        clustersData := json;
      }
    }

    /**
     * The filter-and-sort core both handlers repeat: copy, narrow by
     * language and date, and sort the copy in place.
     */
    method DeriveRows(cs: seq<Cluster>) returns (rows: seq<Cluster>)
      ensures rows == DerivedRows(cs, englishOnly, WindowOf(startValue, endValue), sortState)
    {
      rows := cs;
      if englishOnly {
        rows := Filter(rows, IsEnglishCluster);
      }
      var w := WindowOf(startValue, endValue);
      if w.start.Some? || w.end.Some? {
        rows := Filter(rows, (c: Cluster) => InWindow(w, c.latestTimeSubmitted));
      }
      var a := new Cluster[|rows|](i requires 0 <= i < |rows| => rows[i]);
      assert a[..] == rows;
      SortInPlace(a, ClusterOrder(sortState));
      rows := a[..];
    }

    /**
     * `renderFiltered`: the rows drawn and the "Showing X/Y" counts, or
     * nothing when `clustersData` is not an array. X never exceeds Y.
     */
    method RenderFiltered() returns (shown: Option<seq<Cluster>>, total: int)
      ensures shown == View()
      ensures shown.Some? ==> clustersData.JArray? && total == |clustersData.items| && |shown.value| <= total
    {
      if !clustersData.JArray? {
        return None, 0;
      }
      var rows := DeriveRows(clustersData.items);
      DerivedRowsSpec(clustersData.items, englishOnly, WindowOf(startValue, endValue), sortState);
      shown := Some(rows);
      total := |clustersData.items|;
    }

    /**
     * The download handler: the rows `renderFiltered` shows, in the same
     * order, each projected for export.
     */
    method Download() returns (out: Option<seq<ClusterExport>>)
      ensures out.Some? <==> View().Some?
      ensures out.Some? ==> |out.value| == |View().value| &&
                            forall i :: 0 <= i < |out.value| ==> out.value[i] == ExportOf(View().value[i])
    {
      if !clustersData.JArray? {
        return None;
      }
      var rows := DeriveRows(clustersData.items);
      out := Some(Map(rows, ExportOf));
    }
  }
}
