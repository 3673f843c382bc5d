/**
 * The pure half of the cluster table: the JSON envelope `loadClusters`
 * unwraps, the language and date filters and the comparator shared by
 * `renderFiltered` and the download handler, the `setSort` state machine,
 * the header index map and the export projection.
 */
module Clusters {
  import opened Wrappers
  import opened Seqs
  import opened Sorting
  import opened Text
  import opened Calendar
  import opened DateInput

  /**
   * One cluster object. Field names are the JSON keys the code reads; a key
   * that is absent or null is `None`.
   */
  datatype Cluster = Cluster(
    domain: Option<string>,
    rep: Option<string>,
    representative: Option<string>,
    language: Option<string>,
    count: Option<int>,
    unique_links: Option<seq<string>>,
    uniqueLinks: Option<seq<string>>,
    latestTimeSubmitted: Option<int>)

  /** The value `r.json()` resolves to; arrays hold cluster objects. */
  datatype Json =
    | JNull
    | JBool(b: bool)
    | JNumber(n: int)
    | JString(s: string)
    | JArray(items: seq<Cluster>)
    | JObject(fields: map<string, Json>)

  /** JavaScript truthiness: null, false, 0 and '' are falsy; arrays and objects are not. */
  predicate Truthy(j: Json) {
    match j
    case JNull => false
    case JBool(b) => b
    case JNumber(n) => n != 0
    case JString(s) => s != ""
    case JArray(_) => true
    case JObject(_) => true
  }

  /** `j[key]` on a value that is not null: `None` for undefined. */
  function Member(j: Json, key: string): Option<Json> {
    if j.JObject? && key in j.fields then Some(j.fields[key]) else None
  }

  /** Whether `j[key]` is truthy. */
  predicate HasTruthy(j: Json, key: string) {
    Member(j, key).Some? && Truthy(Member(j, key).value)
  }

  /**
   * The envelope choice of `loadClusters`: an array as it is, else a truthy
   * `.clusters`, else a truthy `.results`, else the value itself. Reading a
   * property of null throws, so null yields `None` and nothing is stored.
   */
  function Envelope(json: Json): Option<Json> {
    if json.JArray? then Some(json)
    else if json.JNull? then None
    else if HasTruthy(json, "clusters") then Member(json, "clusters")
    else if HasTruthy(json, "results") then Member(json, "results")
    else Some(json)
  }

  /**
   * The clusters `renderFiltered` and the download handler work on: only an
   * array gets that far. A falsy value makes `renderFiltered` return early
   * and any other value makes `.slice`, `.filter` or `.sort` throw.
   */
  function ClusterRows(data: Json): (rows: Option<seq<Cluster>>)
    ensures rows.Some? <==> data.JArray?
  {
    if data.JArray? then Some(data.items) else None
  }

  /**
   * What the envelope yields: a bare array, or one under a truthy `clusters`
   * key, or, failing that, under a truthy `results` key; an object with
   * neither is kept whole and then renders nothing.
   */
  lemma EnvelopeRows(json: Json)
    ensures json.JArray? ==> Envelope(json) == Some(json) && ClusterRows(Envelope(json).value) == Some(json.items)
    ensures json.JNull? ==> Envelope(json).None?
    ensures json.JObject? && "clusters" in json.fields && json.fields["clusters"].JArray? ==>
              ClusterRows(Envelope(json).value) == Some(json.fields["clusters"].items)
    ensures json.JObject? && !HasTruthy(json, "clusters") && "results" in json.fields && json.fields["results"].JArray? ==>
              ClusterRows(Envelope(json).value) == Some(json.fields["results"].items)
    ensures json.JObject? && !HasTruthy(json, "clusters") && !HasTruthy(json, "results") ==>
              Envelope(json) == Some(json) && ClusterRows(Envelope(json).value).None?
  {
  }

  /** Unwrapping twice changes nothing once the first unwrap has produced an array. */
  lemma EnvelopeArrayFixed(json: Json)
    requires Envelope(json).Some? && Envelope(json).value.JArray?
    ensures Envelope(Envelope(json).value) == Envelope(json)
  {
  }

  // ----- Filters -----

  /** `a || b` on two string fields. */
  function OrElse(a: Option<string>, b: Option<string>): (r: Option<string>)
    ensures r == a || r == b
  {
    if a.Some? && a.value != "" then a else b
  }

  /** `r.language || (r.rep || r.representative || '')`. */
  function LanguageOf(c: Cluster): string {
    OrElse(c.language, OrElse(c.rep, c.representative)).GetOr("")
  }

  /** The English-only test of both handlers. */
  predicate IsEnglishCluster(c: Cluster) {
    Lower(LanguageOf(c)) == "en"
  }

  /**
   * A non-empty `language` alone decides the test; only when it is empty or
   * missing do `rep` and then `representative` stand in.
   */
  lemma LanguageFallback(c: Cluster)
    ensures c.language.Some? && c.language.value != "" ==>
              (IsEnglishCluster(c) <==> Lower(c.language.value) == "en")
    ensures (c.language.None? || c.language.value == "") && c.rep.Some? && c.rep.value != "" ==>
              (IsEnglishCluster(c) <==> Lower(c.rep.value) == "en")
    ensures (c.language.None? || c.language.value == "") && (c.rep.None? || c.rep.value == "") ==>
              (IsEnglishCluster(c) <==> c.representative.Some? && Lower(c.representative.value) == "en")
  {
  }

  predicate KeepCluster(englishOnly: bool, w: Window, c: Cluster) {
    && (englishOnly ==> IsEnglishCluster(c))
    && (Active(w) ==> InWindow(w, c.latestTimeSubmitted))
  }

  function KeptClusters(englishOnly: bool, w: Window): Cluster -> bool {
    c => KeepCluster(englishOnly, w, c)
  }

  /** The language filter when the checkbox is on, then the date filter when a bound is set. */
  function FilteredClusters(cs: seq<Cluster>, englishOnly: bool, w: Window): seq<Cluster> {
    var inLanguage := if englishOnly then Filter(cs, IsEnglishCluster) else cs;
    if Active(w) then Filter(inLanguage, (c: Cluster) => InWindow(w, c.latestTimeSubmitted)) else inLanguage
  }

  /** The two filters keep, in their original order, exactly the clusters `KeepCluster` accepts. */
  lemma FilteredClustersKeep(cs: seq<Cluster>, englishOnly: bool, w: Window)
    ensures FilteredClusters(cs, englishOnly, w) == Filter(cs, KeptClusters(englishOnly, w))
  {
    var dated := (c: Cluster) => InWindow(w, c.latestTimeSubmitted);
    if englishOnly {
      if Active(w) {
        FilterFilter(cs, IsEnglishCluster, dated, KeptClusters(englishOnly, w));
      } else {
        FilterSame(cs, IsEnglishCluster, KeptClusters(englishOnly, w));
      }
    } else {
      if Active(w) {
        FilterSame(cs, dated, KeptClusters(englishOnly, w));
      } else {
        FilterAll(cs, KeptClusters(englishOnly, w));
      }
    }
  }

  /**
   * The surviving clusters are exactly those of the input that pass both
   * filters, each unchanged (links included) and as often as it occurs; with
   * a bound set, none lacks `latestTimeSubmitted` or has it 0.
   */
  lemma FilteredClustersMembers(cs: seq<Cluster>, englishOnly: bool, w: Window)
    ensures forall c :: c in FilteredClusters(cs, englishOnly, w) <==> c in cs && KeepCluster(englishOnly, w, c)
    ensures forall c :: multiset(FilteredClusters(cs, englishOnly, w))[c] ==
                        if KeepCluster(englishOnly, w, c) then multiset(cs)[c] else 0
    ensures Active(w) ==> forall c :: c in FilteredClusters(cs, englishOnly, w) ==> c.latestTimeSubmitted.Some? && c.latestTimeSubmitted.value != 0
  {
    FilteredClustersKeep(cs, englishOnly, w);
    FilterMembers(cs, KeptClusters(englishOnly, w));
  }

  /**
   * Narrowing the window, by filling in an empty input or by moving a bound
   * inwards on either side, never lets more clusters through.
   */
  lemma NarrowerWindowFewerClusters(cs: seq<Cluster>, englishOnly: bool, wide: Window, narrow: Window)
    requires WindowContains(wide, narrow)
    ensures |FilteredClusters(cs, englishOnly, narrow)| <= |FilteredClusters(cs, englishOnly, wide)|
  {
    FilteredClustersKeep(cs, englishOnly, narrow);
    FilteredClustersKeep(cs, englishOnly, wide);
    forall c | c in cs && KeptClusters(englishOnly, narrow)(c) ensures KeptClusters(englishOnly, wide)(c) {
      if Active(wide) {
        NarrowerWindow(wide, narrow, c.latestTimeSubmitted);
      }
    }
    FilterMonotone(cs, KeptClusters(englishOnly, narrow), KeptClusters(englishOnly, wide));
  }

  /** With the checkbox off and both date inputs empty, every cluster is kept in place. */
  lemma NoFilterKeepsAll(cs: seq<Cluster>)
    ensures FilteredClusters(cs, false, WindowOf("", "")) == cs
  {
    FilteredClustersKeep(cs, false, WindowOf("", ""));
    FilterAll(cs, KeptClusters(false, WindowOf("", "")));
  }

  /**
   * With both inputs naming calendar days, a cluster passes the date filter
   * exactly when its latest submission is non-zero and lies from the start day's midnight up
   * to, but not including, the midnight after the end day.
   */
  lemma FilteredClustersInDays(cs: seq<Cluster>, englishOnly: bool, sv: string, s: CivilDate, ev: string, e: CivilDate, c: Cluster)
    requires ValidDate(s) && s.year >= 100 && Names(sv, s)
    requires ValidDate(e) && e.year >= 100 && Names(ev, e)
    requires c in cs
    ensures c in FilteredClusters(cs, englishOnly, WindowOf(sv, ev)) <==>
              && (englishOnly ==> IsEnglishCluster(c))
              && c.latestTimeSubmitted.Some? && c.latestTimeSubmitted.value != 0
              && Midnight(DayNumber(s)) <= c.latestTimeSubmitted.value < Midnight(DayNumber(e)) + MsPerDay
  {
    FilteredClustersMembers(cs, englishOnly, WindowOf(sv, ev));
    if c.latestTimeSubmitted.Some? {
      InWindowOfDays(sv, s, ev, e, c.latestTimeSubmitted.value);
    } else {
      InWindowOfDays(sv, s, ev, e, 0);
    }
  }

  // ----- Sort state -----

  datatype ClusterKey = Domain | Count | Links
  datatype Dir = Asc | Desc
  datatype ClusterSort = ClusterSort(key: ClusterKey, dir: Dir)

  const InitialClusterSort: ClusterSort := ClusterSort(Count, Desc)

  function Flip(d: Dir): Dir {
    if d == Asc then Desc else Asc
  }

  /** The direction a newly chosen key starts with: descending for `count`, ascending otherwise. */
  function DefaultDir(key: ClusterKey): Dir {
    if key == Count then Desc else Asc
  }

  /** The state `setSort(key)` leaves behind. */
  function NextSort(s: ClusterSort, key: ClusterKey): ClusterSort {
    if s.key == key then ClusterSort(key, Flip(s.dir)) else ClusterSort(key, DefaultDir(key))
  }

  /**
   * `setSort` always selects `key`; the same key flips direction and a
   * second click restores it; a new key starts descending for `count` and
   * ascending for the others.
   */
  lemma NextSortSpec(s: ClusterSort, key: ClusterKey)
    ensures NextSort(s, key).key == key
    ensures s.key == key ==> NextSort(s, key).dir != s.dir && NextSort(NextSort(s, key), key) == s
    ensures s.key != key ==> NextSort(s, key).dir == (if key == Count then Desc else Asc)
  {
  }

  /** The key of header `idx`: 0 is `domain`, 1 is `count`, every other index is `links`. */
  function HeaderKey(idx: nat): ClusterKey {
    if idx == 0 then Domain else if idx == 1 then Count else Links
  }

  /** The sort indicator `updateHeaderIndicators` gives header `idx`, if any. */
  function Indicator(idx: nat, s: ClusterSort): Option<Dir> {
    if HeaderKey(idx) == s.key then Some(s.dir) else None
  }

  /** Of the three headers exactly one, the one mapped to the active key, shows the direction. */
  lemma OneIndicator(s: ClusterSort)
    ensures exists idx :: 0 <= idx < 3 && HeaderKey(idx) == s.key
    ensures forall idx: nat :: idx < 3 ==> (Indicator(idx, s).Some? <==> HeaderKey(idx) == s.key)
    ensures forall idx: nat, jdx: nat :: idx < jdx < 3 ==> HeaderKey(idx) != HeaderKey(jdx)
    ensures forall idx: nat :: Indicator(idx, s).Some? ==> Indicator(idx, s).value == s.dir
  {
    var idx := if s.key == Domain then 0 else if s.key == Count then 1 else 2;
    assert HeaderKey(idx) == s.key;
  }

  // ----- Comparator -----

  /** `dir * d` with `dir` being 1 or -1. */
  function DirTimes(d: Dir, x: int): int {
    if d == Asc then x else -x
  }

  /** `c.count || 0`, which is both the sort key and the count shown. */
  function CountOrZero(c: Cluster): int {
    c.count.GetOr(0)
  }

  /** `String(c.domain || c.rep || '')`. */
  function DomainKey(c: Cluster): string {
    OrElse(c.domain, c.rep).GetOr("")
  }

  /** `c.unique_links || c.uniqueLinks || []`: an array, even an empty one, is truthy. */
  function LinksOf(c: Cluster): seq<string> {
    if c.unique_links.Some? then c.unique_links.value
    else if c.uniqueLinks.Some? then c.uniqueLinks.value
    else []
  }

  /** The comparator both handlers pass to `rows.sort`. */
  function CompareClusters(s: ClusterSort, a: Cluster, b: Cluster): int {
    match s.key
    case Count => DirTimes(s.dir, CountOrZero(a) - CountOrZero(b))
    case Domain => DirTimes(s.dir, LexCompare(DomainKey(a), DomainKey(b)))
    case Links => DirTimes(s.dir, |LinksOf(a)| - |LinksOf(b)|)
  }

  function ClusterOrder(s: ClusterSort): (Cluster, Cluster) -> int {
    (a, b) => CompareClusters(s, a, b)
  }

  /** For every key and direction the comparator is a consistent total preorder. */
  lemma ClusterOrderTotal(s: ClusterSort)
    ensures TotalPreorder(ClusterOrder(s))
  {
    var cmp := ClusterOrder(s);
    forall a: Cluster, b: Cluster ensures Sign(cmp(a, b)) == -Sign(cmp(b, a)) {
      LexCompareSpec(DomainKey(a), DomainKey(b));
    }
    forall a: Cluster, b: Cluster, c: Cluster | cmp(a, b) <= 0 && cmp(b, c) <= 0 ensures cmp(a, c) <= 0 {
      if s.key == Domain {
        var da, db, dc := DomainKey(a), DomainKey(b), DomainKey(c);
        LexCompareSpec(da, db);
        LexCompareSpec(db, dc);
        LexCompareSpec(da, dc);
        if s.dir == Asc {
          LexCompareTransitive(da, db, dc);
        } else {
          LexCompareTransitive(dc, db, da);
        }
      }
    }
  }

  /**
   * A negative comparison puts `a` first: for `count` and `links` when its
   * value is smaller (larger when descending), for `domain` when its domain
   * key comes first in the string order (last when descending).
   */
  lemma CompareClustersSign(s: ClusterSort, a: Cluster, b: Cluster)
    ensures s.key == Count ==>
              (CompareClusters(s, a, b) < 0 <==> if s.dir == Asc then CountOrZero(a) < CountOrZero(b) else CountOrZero(b) < CountOrZero(a))
    ensures s.key == Domain ==>
              (CompareClusters(s, a, b) < 0 <==> if s.dir == Asc then LexLess(DomainKey(a), DomainKey(b)) else LexLess(DomainKey(b), DomainKey(a)))
    ensures s.key == Links ==>
              (CompareClusters(s, a, b) < 0 <==> if s.dir == Asc then |LinksOf(a)| < |LinksOf(b)| else |LinksOf(b)| < |LinksOf(a)|)
  {
    LexLessTotal(DomainKey(a), DomainKey(b));
  }

  /** Flipping the direction negates every comparison. */
  lemma FlipNegatesCluster(s: ClusterSort, a: Cluster, b: Cluster)
    ensures CompareClusters(ClusterSort(s.key, Flip(s.dir)), a, b) == -CompareClusters(s, a, b)
  {
  }

  /** The rows both handlers derive: filtered, then sorted by the current state. */
  function DerivedRows(cs: seq<Cluster>, englishOnly: bool, w: Window, s: ClusterSort): seq<Cluster> {
    Sort(FilteredClusters(cs, englishOnly, w), ClusterOrder(s))
  }

  /**
   * Clicking the active header again reverses every strictly ordered pair
   * of clusters: where `x` sorts strictly before `y`, every occurrence of
   * `x` precedes every occurrence of `y`, and after the flip follows it.
   */
  lemma FlipReversesClusters(cs: seq<Cluster>, englishOnly: bool, w: Window, s: ClusterSort, x: Cluster, y: Cluster)
    requires CompareClusters(s, x, y) < 0
    ensures var r := DerivedRows(cs, englishOnly, w, s);
            forall i, j :: 0 <= i < |r| && 0 <= j < |r| && r[i] == x && r[j] == y ==> i < j
    ensures var r := DerivedRows(cs, englishOnly, w, ClusterSort(s.key, Flip(s.dir)));
            forall i, j :: 0 <= i < |r| && 0 <= j < |r| && r[i] == y && r[j] == x ==> i < j
  {
    var flipped := ClusterSort(s.key, Flip(s.dir));
    ClusterOrderTotal(s);
    forall a: Cluster, b: Cluster ensures ClusterOrder(flipped)(a, b) == -ClusterOrder(s)(a, b) {
      FlipNegatesCluster(s, a, b);
    }
    var kept := FilteredClusters(cs, englishOnly, w);
    FlipReverses(kept, ClusterOrder(s), ClusterOrder(flipped), x, y);
    assert DerivedRows(cs, englishOnly, w, s) == Sort(kept, ClusterOrder(s));
    assert DerivedRows(cs, englishOnly, w, flipped) == Sort(kept, ClusterOrder(flipped));
  }

  /**
   * The derived rows are a permutation of the kept clusters, ordered by the
   * comparator, and never more than the clusters loaded.
   */
  lemma DerivedRowsSpec(cs: seq<Cluster>, englishOnly: bool, w: Window, s: ClusterSort)
    ensures var rows := DerivedRows(cs, englishOnly, w, s);
            && multiset(rows) == multiset(Filter(cs, KeptClusters(englishOnly, w)))
            && (forall c :: c in rows <==> c in cs && KeepCluster(englishOnly, w, c))
            && |rows| <= |cs|
            && Sorted(rows, ClusterOrder(s))
  {
    var filtered := FilteredClusters(cs, englishOnly, w);
    FilteredClustersKeep(cs, englishOnly, w);
    FilteredClustersMembers(cs, englishOnly, w);
    SortPermutes(filtered, ClusterOrder(s));
    ClusterOrderTotal(s);
    SortSorted(filtered, ClusterOrder(s));
    var rows := Sort(filtered, ClusterOrder(s));
    forall c ensures c in rows <==> c in filtered {
      assert c in rows <==> multiset(rows)[c] > 0;
      assert c in filtered <==> multiset(filtered)[c] > 0;
    }
  }

  /** Sorting by `count` orders by the count shown, a missing count counting as 0. */
  lemma SortedByCount(rows: seq<Cluster>, d: Dir)
    ensures var out := Sort(rows, ClusterOrder(ClusterSort(Count, d)));
            forall i, j :: 0 <= i < j < |out| ==>
              if d == Asc then CountOrZero(out[i]) <= CountOrZero(out[j]) else CountOrZero(out[i]) >= CountOrZero(out[j])
  {
    ClusterOrderTotal(ClusterSort(Count, d));
    SortSorted(rows, ClusterOrder(ClusterSort(Count, d)));
  }

  /** Sorting by `domain` orders by `domain || rep`. */
  lemma SortedByDomain(rows: seq<Cluster>, d: Dir)
    ensures var out := Sort(rows, ClusterOrder(ClusterSort(Domain, d)));
            forall i, j :: 0 <= i < j < |out| ==>
              if d == Asc then !LexLess(DomainKey(out[j]), DomainKey(out[i])) else !LexLess(DomainKey(out[i]), DomainKey(out[j]))
  {
    ClusterOrderTotal(ClusterSort(Domain, d));
    SortSorted(rows, ClusterOrder(ClusterSort(Domain, d)));
  }

  /** Sorting by `links` orders by the number of links. */
  lemma SortedByLinks(rows: seq<Cluster>, d: Dir)
    ensures var out := Sort(rows, ClusterOrder(ClusterSort(Links, d)));
            forall i, j :: 0 <= i < j < |out| ==>
              if d == Asc then |LinksOf(out[i])| <= |LinksOf(out[j])| else |LinksOf(out[i])| >= |LinksOf(out[j])|
  {
    ClusterOrderTotal(ClusterSort(Links, d));
    SortSorted(rows, ClusterOrder(ClusterSort(Links, d)));
  }

  // ----- Export -----

  /** One object of the downloaded JSON. */
  datatype ClusterExport = ClusterExport(
    representative: Option<string>,
    domain: Option<string>,
    count: Option<int>,
    unique_links: seq<string>,
    latestTimeSubmitted: Option<int>,
    language: Option<string>)

  /** The download `map`. */
  function ExportOf(c: Cluster): ClusterExport {
    ClusterExport(
      OrElse(c.representative, OrElse(c.rep, c.domain)),
      c.domain, c.count, LinksOf(c), c.latestTimeSubmitted, c.language)
  }

  /** The three cells `renderFiltered` fills for a cluster: name, count and links. */
  function Cells(c: Cluster): (string, string, seq<string>) {
    (OrElse(c.representative, OrElse(c.rep, c.domain)).GetOr(""), IntToString(CountOrZero(c)), LinksOf(c))
  }

  /**
   * An exported object carries what its table row shows: the name falls
   * back from `representative` to `rep` to `domain`, the links from
   * `unique_links` to `uniqueLinks` to [], and the count is the stored one.
   */
  lemma ExportMatchesCells(c: Cluster)
    ensures var e := ExportOf(c);
            Cells(c) == (e.representative.GetOr(""), IntToString(e.count.GetOr(0)), e.unique_links)
    ensures c.representative.Some? && c.representative.value != "" ==> ExportOf(c).representative == c.representative
    ensures (c.representative.None? || c.representative.value == "") && c.rep.Some? && c.rep.value != "" ==>
              ExportOf(c).representative == c.rep
    ensures (c.representative.None? || c.representative.value == "") && (c.rep.None? || c.rep.value == "") ==>
              ExportOf(c).representative == c.domain
    ensures c.unique_links.None? && c.uniqueLinks.None? ==> ExportOf(c).unique_links == []
  {
  }
}
