/**
 * The pure half of the record table: the rows read from trimmed.json, the
 * filter chain and comparator of `getFilteredSortedRows`, the sort-state
 * toggle of a header click, the `loadMore` cutoff arithmetic, the
 * description preview and the export projection.
 */
module Records {
  import opened Wrappers
  import opened Seqs
  import opened Sorting
  import opened Text
  import opened Calendar
  import opened DateInput

  /** `PAGE_SIZE`: rows added per load, and the cutoff every reset restores. */
  const PageSize: int := 50

  /** Descriptions longer than this many characters are previewed. */
  const PreviewLimit: int := 120

  function Min(a: int, b: int): int {
    if a <= b then a else b
  }

  function Max(a: int, b: int): int {
    if a <= b then b else a
  }

  /** A sponsor entry; the filter and the sort look only at how many there are. */
  datatype Sponsor = Sponsor(sponsorName: Option<string>, link: Option<string>)

  /**
   * One entry of trimmed.json as fetched. A field that is absent or null is
   * `None`; `sponsors` is also `None` when it is not an array.
   */
  datatype Item = Item(
    timeSubmitted: Option<int>,
    videoID: Option<string>,
    title: Option<string>,
    sponsors: Option<seq<Sponsor>>,
    description: Option<string>,
    descriptionLanguage: Option<string>)

  /** A row of `data` after `loadData` has normalised it. */
  datatype Record = Record(
    timeSubmitted: Option<int>,
    videoID: Option<string>,
    title: string,
    sponsors: seq<Sponsor>,
    description: string,
    descriptionLanguage: string)

  /**
   * The `loadData` mapping: missing text becomes '', a non-array `sponsors`
   * becomes [], and the language is lowercased.
   */
  function Normalize(item: Item): (r: Record)
    ensures forall i :: 0 <= i < |r.descriptionLanguage| ==> !IsUpper(r.descriptionLanguage[i])
  {
    Record(
      item.timeSubmitted,
      item.videoID,
      item.title.GetOr(""),
      item.sponsors.GetOr([]),
      item.description.GetOr(""),
      Lower(item.descriptionLanguage.GetOr("")))
  }

  function NormalizeAll(items: seq<Item>): (data: seq<Record>)
    ensures |data| == |items|
    ensures forall i :: 0 <= i < |items| ==> data[i] == Normalize(items[i])
  {
    seq(|items|, i requires 0 <= i < |items| => Normalize(items[i]))
  }

  // ----- The filter chain -----

  /** The first filter: the row has at least one sponsor. */
  predicate HasSponsors(r: Record) {
    |r.sponsors| > 0
  }

  /** The English-only filter: the lowercased language is exactly "en". */
  predicate IsEnglish(r: Record) {
    Lower(r.descriptionLanguage) == "en"
  }

  /** What the three filters together ask of a row. */
  predicate Keep(englishOnly: bool, w: Window, r: Record) {
    && HasSponsors(r)
    && (englishOnly ==> IsEnglish(r))
    && (Active(w) ==> InWindow(w, r.timeSubmitted))
  }

  function Kept(englishOnly: bool, w: Window): Record -> bool {
    r => Keep(englishOnly, w, r)
  }

  /**
   * The successive `rows.filter` calls of `getFilteredSortedRows`: sponsors,
   * then language when the checkbox is on, then the date window when either
   * input holds a value.
   */
  function FilteredRows(data: seq<Record>, englishOnly: bool, w: Window): (rows: seq<Record>)
    ensures |rows| <= |data|
  {
    var withSponsors := Filter(data, HasSponsors);
    var inLanguage := if englishOnly then Filter(withSponsors, IsEnglish) else withSponsors;
    if Active(w) then Filter(inLanguage, (r: Record) => InWindow(w, r.timeSubmitted)) else inLanguage
  }

  /** The filter chain keeps, in their original order, exactly the rows `Keep` accepts. */
  lemma FilteredRowsKeep(data: seq<Record>, englishOnly: bool, w: Window)
    ensures FilteredRows(data, englishOnly, w) == Filter(data, Kept(englishOnly, w))
  {
    var withSponsors := Filter(data, HasSponsors);
    var dated := (r: Record) => InWindow(w, r.timeSubmitted);
    if englishOnly {
      var english := (r: Record) => HasSponsors(r) && IsEnglish(r);
      FilterFilter(data, HasSponsors, IsEnglish, english);
      if Active(w) {
        FilterFilter(data, english, dated, Kept(englishOnly, w));
      } else {
        FilterSame(data, english, Kept(englishOnly, w));
      }
    } else {
      if Active(w) {
        FilterFilter(data, HasSponsors, dated, Kept(englishOnly, w));
      } else {
        FilterSame(data, HasSponsors, Kept(englishOnly, w));
      }
    }
  }

  /**
   * Every row that comes out has sponsors, is English when the checkbox is
   * on and lies in the window when a bound is set; every row of `data` that
   * passes all three comes out as often as it occurs in `data`.
   */
  lemma FilteredRowsMembers(data: seq<Record>, englishOnly: bool, w: Window)
    ensures forall r :: r in FilteredRows(data, englishOnly, w) <==> r in data && Keep(englishOnly, w, r)
    ensures forall r :: multiset(FilteredRows(data, englishOnly, w))[r] ==
                        if Keep(englishOnly, w, r) then multiset(data)[r] else 0
  {
    FilteredRowsKeep(data, englishOnly, w);
    FilterMembers(data, Kept(englishOnly, w));
  }

  /**
   * With both inputs naming calendar days, a row passes the date filter
   * exactly when it has a non-zero timestamp from the start day's midnight up to,
   * but not including, the midnight after the end day.
   */
  lemma FilteredRowsInDays(data: seq<Record>, englishOnly: bool, sv: string, s: CivilDate, ev: string, e: CivilDate, r: Record)
    requires ValidDate(s) && s.year >= 100 && Names(sv, s)
    requires ValidDate(e) && e.year >= 100 && Names(ev, e)
    requires r in data
    ensures r in FilteredRows(data, englishOnly, WindowOf(sv, ev)) <==>
              && HasSponsors(r)
              && (englishOnly ==> IsEnglish(r))
              && r.timeSubmitted.Some? && r.timeSubmitted.value != 0
              && Midnight(DayNumber(s)) <= r.timeSubmitted.value < Midnight(DayNumber(e)) + MsPerDay
  {
    FilteredRowsMembers(data, englishOnly, WindowOf(sv, ev));
    if r.timeSubmitted.Some? {
      InWindowOfDays(sv, s, ev, e, r.timeSubmitted.value);
    } else {
      InWindowOfDays(sv, s, ev, e, 0);
    }
  }

  /** With both inputs empty, the date filter changes nothing. */
  lemma NoBoundNoDateFilter(data: seq<Record>, englishOnly: bool)
    ensures FilteredRows(data, englishOnly, WindowOf("", "")) ==
            Filter(data, (r: Record) => HasSponsors(r) && (englishOnly ==> IsEnglish(r)))
  {
    var w := WindowOf("", "");
    assert !Active(w);
    FilteredRowsKeep(data, englishOnly, w);
    FilterSame(data, Kept(englishOnly, w), (r: Record) => HasSponsors(r) && (englishOnly ==> IsEnglish(r)));
  }

  /**
   * Narrowing the window, by filling in an empty input or by moving a bound
   * inwards on either side, never lets more rows through.
   */
  lemma NarrowerWindowFewerRows(data: seq<Record>, englishOnly: bool, wide: Window, narrow: Window)
    requires WindowContains(wide, narrow)
    ensures |FilteredRows(data, englishOnly, narrow)| <= |FilteredRows(data, englishOnly, wide)|
  {
    FilteredRowsKeep(data, englishOnly, narrow);
    FilteredRowsKeep(data, englishOnly, wide);
    forall r | r in data && Kept(englishOnly, narrow)(r) ensures Kept(englishOnly, wide)(r) {
      if Active(wide) {
        NarrowerWindow(wide, narrow, r.timeSubmitted);
      }
    }
    FilterMonotone(data, Kept(englishOnly, narrow), Kept(englishOnly, wide));
  }

  /** A loaded row is English exactly when the item's language, lowercased, is "en". */
  lemma NormalizedLanguage(item: Item)
    ensures IsEnglish(Normalize(item)) <==> item.descriptionLanguage.Some? && Lower(item.descriptionLanguage.value) == "en"
    ensures HasSponsors(Normalize(item)) <==> item.sponsors.Some? && |item.sponsors.value| > 0
  {
    LowerIdempotent(item.descriptionLanguage.GetOr(""));
  }

  /**
   * Row `i` of the loaded data passes the sponsor filter exactly when item
   * `i` has a non-empty `sponsors` array, and the language filter exactly
   * when its language is "en" in any letter case.
   */
  lemma LoadedRows(items: seq<Item>)
    ensures forall i :: 0 <= i < |items| ==>
              && (HasSponsors(NormalizeAll(items)[i]) <==> items[i].sponsors.Some? && |items[i].sponsors.value| > 0)
              && (IsEnglish(NormalizeAll(items)[i]) <==> items[i].descriptionLanguage.Some? && Lower(items[i].descriptionLanguage.value) == "en")
  {
    forall i | 0 <= i < |items|
      ensures HasSponsors(NormalizeAll(items)[i]) <==> items[i].sponsors.Some? && |items[i].sponsors.value| > 0
      ensures IsEnglish(NormalizeAll(items)[i]) <==> items[i].descriptionLanguage.Some? && Lower(items[i].descriptionLanguage.value) == "en"
    {
      NormalizedLanguage(items[i]);
    }
  }

  // ----- The comparator -----

  /** `sortState`: the active column key and its direction. */
  datatype SortState = SortState(key: string, asc: bool)

  const InitialSort: SortState := SortState("timeSubmitted", false)

  /**
   * A header click: the active key flips its direction; another key
   * becomes active in ascending order.
   */
  function Toggle(s: SortState, key: string): SortState {
    if s.key == key then SortState(key, !s.asc) else SortState(key, true)
  }

  /** Clicking the same header twice restores the direction it had. */
  lemma ToggleTwice(s: SortState, key: string)
    ensures Toggle(s, key).key == key
    ensures s.key == key ==> Toggle(s, key).asc == !s.asc && Toggle(Toggle(s, key), key) == s
    ensures s.key != key ==> Toggle(s, key).asc && Toggle(Toggle(s, key), key) == SortState(key, false)
  {
  }

  /** `d * (asc ? 1 : -1)`. */
  function Directed(asc: bool, d: int): int {
    if asc then d else -d
  }

  /** `new Date(r.timeSubmitted || 0).getTime()`: a missing time counts as 0. */
  function TimeOrZero(r: Record): int {
    r.timeSubmitted.GetOr(0)
  }

  /** `(r.videoID || '').toLowerCase()`. */
  function VideoKey(r: Record): string {
    Lower(r.videoID.GetOr(""))
  }

  /** The comparator passed to `rows.sort`; an unknown key compares every pair as equal. */
  function CompareRecords(key: string, asc: bool, a: Record, b: Record): int {
    if key == "timeSubmitted" then Directed(asc, TimeOrZero(a) - TimeOrZero(b))
    else if key == "video" then
      if LexLess(VideoKey(a), VideoKey(b)) then Directed(asc, -1)
      else if LexLess(VideoKey(b), VideoKey(a)) then Directed(asc, 1)
      else 0
    else if key == "sponsorCount" then Directed(asc, |a.sponsors| - |b.sponsors|)
    else 0
  }

  function RecordOrder(key: string, asc: bool): (Record, Record) -> int {
    (a, b) => CompareRecords(key, asc, a, b)
  }

  /**
   * A negative comparison puts `a` first: for `timeSubmitted` and
   * `sponsorCount` when its value is smaller (larger when descending), for
   * `video` when its lowercased id is less (greater when descending); any
   * other key ties every pair.
   */
  lemma CompareRecordsSign(key: string, asc: bool, a: Record, b: Record)
    ensures key == "timeSubmitted" ==>
              (CompareRecords(key, asc, a, b) < 0 <==> if asc then TimeOrZero(a) < TimeOrZero(b) else TimeOrZero(b) < TimeOrZero(a))
    ensures key == "video" ==>
              (CompareRecords(key, asc, a, b) < 0 <==> if asc then LexLess(VideoKey(a), VideoKey(b)) else LexLess(VideoKey(b), VideoKey(a)))
    ensures key == "sponsorCount" ==>
              (CompareRecords(key, asc, a, b) < 0 <==> if asc then |a.sponsors| < |b.sponsors| else |b.sponsors| < |a.sponsors|)
    ensures key != "timeSubmitted" && key != "video" && key != "sponsorCount" ==> CompareRecords(key, asc, a, b) == 0
  {
    LexLessTotal(VideoKey(a), VideoKey(b));
  }

  /** Flipping the direction negates every comparison. */
  lemma FlipNegates(key: string, asc: bool, a: Record, b: Record)
    ensures CompareRecords(key, !asc, a, b) == -CompareRecords(key, asc, a, b)
  {
  }

  /** For every key and direction the comparator is a consistent total preorder. */
  lemma RecordOrderTotal(key: string, asc: bool)
    ensures TotalPreorder(RecordOrder(key, asc))
  {
    var cmp := RecordOrder(key, asc);
    forall a: Record, b: Record ensures Sign(cmp(a, b)) == -Sign(cmp(b, a)) {
      LexLessTotal(VideoKey(a), VideoKey(b));
    }
    forall a: Record, b: Record, c: Record | cmp(a, b) <= 0 && cmp(b, c) <= 0 ensures cmp(a, c) <= 0 {
      if key == "video" {
        var va, vb, vc := VideoKey(a), VideoKey(b), VideoKey(c);
        LexLessTotal(va, vb);
        LexLessTotal(vb, vc);
        LexLessTotal(va, vc);
        if asc {
          LexNotLessChain(va, vb, vc);
        } else {
          LexNotLessChain(vc, vb, va);
        }
      }
    }
  }

  /** The sort runs only when the key is non-empty. */
  function FilteredSortedRows(data: seq<Record>, englishOnly: bool, w: Window, s: SortState): seq<Record> {
    var rows := FilteredRows(data, englishOnly, w);
    if s.key != "" then Sort(rows, RecordOrder(s.key, s.asc)) else rows
  }

  /**
   * Clicking the active header again reverses every strictly ordered pair
   * of rows: where `x` sorts strictly before `y`, every occurrence of `x`
   * precedes every occurrence of `y`, and after the flip follows it.
   */
  lemma FlipReversesRows(data: seq<Record>, englishOnly: bool, w: Window, key: string, asc: bool, x: Record, y: Record)
    requires CompareRecords(key, asc, x, y) < 0
    ensures var r := FilteredSortedRows(data, englishOnly, w, SortState(key, asc));
            forall i, j :: 0 <= i < |r| && 0 <= j < |r| && r[i] == x && r[j] == y ==> i < j
    ensures var r := FilteredSortedRows(data, englishOnly, w, SortState(key, !asc));
            forall i, j :: 0 <= i < |r| && 0 <= j < |r| && r[i] == y && r[j] == x ==> i < j
  {
    assert key != "";
    RecordOrderTotal(key, asc);
    forall a: Record, b: Record ensures RecordOrder(key, !asc)(a, b) == -RecordOrder(key, asc)(a, b) {
      FlipNegates(key, asc, a, b);
    }
    var rows := FilteredRows(data, englishOnly, w);
    FlipReverses(rows, RecordOrder(key, asc), RecordOrder(key, !asc), x, y);
    assert FilteredSortedRows(data, englishOnly, w, SortState(key, asc)) == Sort(rows, RecordOrder(key, asc));
    assert FilteredSortedRows(data, englishOnly, w, SortState(key, !asc)) == Sort(rows, RecordOrder(key, !asc));
  }

  /**
   * `getFilteredSortedRows` returns a permutation of the kept rows, ordered
   * by the comparator whenever it sorts, and no longer than `data`.
   */
  lemma FilteredSortedRowsSpec(data: seq<Record>, englishOnly: bool, w: Window, s: SortState)
    ensures var rows := FilteredSortedRows(data, englishOnly, w, s);
            && multiset(rows) == multiset(Filter(data, Kept(englishOnly, w)))
            && (forall r :: r in rows <==> r in data && Keep(englishOnly, w, r))
            && |rows| <= |data|
            && (s.key != "" ==> Sorted(rows, RecordOrder(s.key, s.asc)))
            && (s.key == "" ==> rows == Filter(data, Kept(englishOnly, w)))
  {
    var filtered := FilteredRows(data, englishOnly, w);
    FilteredRowsKeep(data, englishOnly, w);
    FilteredRowsMembers(data, englishOnly, w);
    if s.key != "" {
      SortPermutes(filtered, RecordOrder(s.key, s.asc));
      RecordOrderTotal(s.key, s.asc);
      SortSorted(filtered, RecordOrder(s.key, s.asc));
      var rows := Sort(filtered, RecordOrder(s.key, s.asc));
      forall r ensures r in rows <==> r in filtered {
        assert r in rows <==> multiset(rows)[r] > 0;
        assert r in filtered <==> multiset(filtered)[r] > 0;
      }
    }
  }

  /**
   * Rows the comparator ties keep the order they had in `data`: the sort is
   * stable, as `Array.prototype.sort` is.
   */
  lemma FilteredSortedRowsStable(data: seq<Record>, englishOnly: bool, w: Window, s: SortState, k: Record)
    requires s.key != ""
    ensures var cmp := RecordOrder(s.key, s.asc);
            Filter(FilteredSortedRows(data, englishOnly, w, s), TiedWith(cmp, k)) ==
            Filter(FilteredRows(data, englishOnly, w), TiedWith(cmp, k))
  {
    RecordOrderTotal(s.key, s.asc);
    SortStable(FilteredRows(data, englishOnly, w), RecordOrder(s.key, s.asc), k);
  }

  /** Sorting by `timeSubmitted` orders by time, a missing time counting as 0. */
  lemma SortedByTime(rows: seq<Record>, asc: bool)
    ensures var out := Sort(rows, RecordOrder("timeSubmitted", asc));
            forall i, j :: 0 <= i < j < |out| ==>
              if asc then TimeOrZero(out[i]) <= TimeOrZero(out[j]) else TimeOrZero(out[i]) >= TimeOrZero(out[j])
  {
    RecordOrderTotal("timeSubmitted", asc);
    SortSorted(rows, RecordOrder("timeSubmitted", asc));
  }

  /** Sorting by `video` orders by lowercased video id. */
  lemma SortedByVideo(rows: seq<Record>, asc: bool)
    ensures var out := Sort(rows, RecordOrder("video", asc));
            forall i, j :: 0 <= i < j < |out| ==>
              if asc then !LexLess(VideoKey(out[j]), VideoKey(out[i])) else !LexLess(VideoKey(out[i]), VideoKey(out[j]))
  {
    RecordOrderTotal("video", asc);
    SortSorted(rows, RecordOrder("video", asc));
    var out := Sort(rows, RecordOrder("video", asc));
    forall i, j | 0 <= i < j < |out|
      ensures if asc then !LexLess(VideoKey(out[j]), VideoKey(out[i])) else !LexLess(VideoKey(out[i]), VideoKey(out[j]))
    {
      assert CompareRecords("video", asc, out[i], out[j]) <= 0;
      LexLessTotal(VideoKey(out[i]), VideoKey(out[j]));
    }
  }

  /** Sorting by `sponsorCount` orders by the number of sponsors. */
  lemma SortedBySponsorCount(rows: seq<Record>, asc: bool)
    ensures var out := Sort(rows, RecordOrder("sponsorCount", asc));
            forall i, j :: 0 <= i < j < |out| ==>
              if asc then |out[i].sponsors| <= |out[j].sponsors| else |out[i].sponsors| >= |out[j].sponsors|
  {
    RecordOrderTotal("sponsorCount", asc);
    SortSorted(rows, RecordOrder("sponsorCount", asc));
  }

  /** Any other key compares every pair as equal, so the order is kept. */
  lemma OtherKeyKeepsOrder(rows: seq<Record>, key: string, asc: bool)
    requires key != "timeSubmitted" && key != "video" && key != "sponsorCount"
    ensures Sort(rows, RecordOrder(key, asc)) == rows
  {
    SortAllTied(rows, RecordOrder(key, asc));
  }

  // ----- Pagination -----

  /** `rows.slice(0, displayedCount)`. */
  function Take(rows: seq<Record>, n: int): (visible: seq<Record>)
    requires 0 <= n
    ensures |visible| == Min(n, |rows|)
    ensures visible == rows[..|visible|]
  {
    if n < |rows| then rows[..n] else rows
  }

  /**
   * The cutoff after one completed `loadMore`: unchanged once it has reached
   * the total, otherwise 50 more but never past the total.
   */
  function NextCount(displayed: int, total: int): (r: int)
    ensures displayed <= r
    ensures displayed < total ==> displayed < r <= total && r - displayed <= PageSize
    ensures displayed < total ==> r == Min(displayed + PageSize, total)
    ensures displayed >= total ==> r == displayed
  {
    if displayed >= total then displayed else Min(displayed + PageSize, total)
  }

  /** The cutoff after `n` loads in a row. */
  function Loads(displayed: int, total: int, n: nat): int
    decreases n
  {
    if n == 0 then displayed else Loads(NextCount(displayed, total), total, n - 1)
  }

  /** How many loads it takes to show every row. */
  function LoadsNeeded(displayed: int, total: int): nat
    decreases total - displayed
  {
    if displayed >= total then 0 else 1 + LoadsNeeded(NextCount(displayed, total), total)
  }

  /**
   * Repeated loads reach the total after ceil((total - displayed) / 50)
   * steps, and the cutoff then stays where it is.
   */
  lemma {:induction false} LoadsReachTotal(displayed: int, total: int)
    ensures LoadsNeeded(displayed, total) == if displayed >= total then 0 else (total - displayed + PageSize - 1) / PageSize
    ensures Loads(displayed, total, LoadsNeeded(displayed, total)) == Max(displayed, total)
    ensures NextCount(Max(displayed, total), total) == Max(displayed, total)
    decreases total - displayed
  {
    if displayed < total {
      LoadsReachTotal(NextCount(displayed, total), total);
    }
  }

  /** Loads never move the cutoff past the total, nor backwards. */
  lemma {:induction false} LoadsBounded(displayed: int, total: int, n: nat)
    requires displayed <= total
    ensures displayed <= Loads(displayed, total, n) <= total
    decreases n
  {
    if n > 0 {
      LoadsBounded(NextCount(displayed, total), total, n - 1);
    }
  }

  /** A load only appends rows below those already shown. */
  lemma LoadExtendsVisible(rows: seq<Record>, displayed: int)
    requires 0 <= displayed
    ensures var next := Take(rows, NextCount(displayed, |rows|));
            Take(rows, displayed) == next[..|Take(rows, displayed)|]
  {
  }

  // ----- Description preview -----

  /** Where the run of non-whitespace that ends at `k` starts. */
  function WordStart(t: string, k: nat): (j: nat)
    requires k <= |t|
    ensures j <= k
    ensures forall i :: j <= i < k ==> !IsSpace(t[i])
    ensures j == 0 || IsSpace(t[j - 1])
  {
    if k == 0 || IsSpace(t[k - 1]) then k else WordStart(t, k - 1)
  }

  /** Where the run of whitespace that ends at `k` starts. */
  function SpaceRunStart(t: string, k: nat): (j: nat)
    requires k <= |t|
    ensures j <= k
    ensures forall i :: j <= i < k ==> IsSpace(t[i])
    ensures j == 0 || !IsSpace(t[j - 1])
  {
    if k == 0 || !IsSpace(t[k - 1]) then k else SpaceRunStart(t, k - 1)
  }

  /**
   * Where `t.replace(/\s+\S*$/, '')` cuts `t`: the start of its last
   * whitespace run, or `|t|` when `t` has no whitespace.
   */
  function TrailingWordCut(t: string): (n: nat)
    ensures n <= |t|
  {
    var w := WordStart(t, |t|);
    if w == 0 then |t| else SpaceRunStart(t, w)
  }

  /**
   * The cut removes exactly the leftmost match of `\s+\S*$`: a whitespace
   * run not preceded by whitespace, followed only by non-whitespace.
   */
  lemma TrailingWordCutSpec(t: string)
    ensures TrailingWordCut(t) == |t| <==> forall i :: 0 <= i < |t| ==> !IsSpace(t[i])
    ensures var n := TrailingWordCut(t);
            n < |t| ==>
              && IsSpace(t[n])
              && (n == 0 || !IsSpace(t[n - 1]))
              && forall i, j :: n <= i < j < |t| && IsSpace(t[j]) ==> IsSpace(t[i])
  {
    var w := WordStart(t, |t|);
    if w != 0 {
      var n := SpaceRunStart(t, w);
      assert IsSpace(t[w - 1]);
      assert n < w;
    }
  }

  /** The button text for a description. */
  function Preview(text: string): string {
    if |text| > PreviewLimit then text[..TrailingWordCut(text[..PreviewLimit])] + "\U{2026}" else text
  }

  /**
   * Short text is shown unchanged; longer text becomes a prefix of its first
   * 120 characters, cut before the last whitespace run, followed by '…'.
   */
  lemma PreviewSpec(text: string)
    ensures |text| <= PreviewLimit ==> Preview(text) == text
    ensures |text| > PreviewLimit ==>
              var n := |Preview(text)| - 1;
              && 0 <= n <= PreviewLimit
              && Preview(text) == text[..n] + "\U{2026}"
              && (n == PreviewLimit <==> forall i :: 0 <= i < PreviewLimit ==> !IsSpace(text[i]))
              && (n < PreviewLimit ==>
                    && IsSpace(text[n])
                    && (n == 0 || !IsSpace(text[n - 1]))
                    && forall i, j :: n <= i < j < PreviewLimit && IsSpace(text[j]) ==> IsSpace(text[i]))
  {
    if |text| > PreviewLimit {
      var head := text[..PreviewLimit];
      TrailingWordCutSpec(head);
      var n := TrailingWordCut(head);
      assert head[..n] == text[..n];
      assert Preview(text) == text[..n] + "\U{2026}";
      assert |Preview(text)| - 1 == n;
      assert forall i :: 0 <= i < PreviewLimit ==> head[i] == text[i];
    }
  }

  // ----- Export -----

  /** One object of the downloaded JSON. */
  datatype ExportRow = ExportRow(
    videoID: Option<string>,
    timeSubmitted: Option<int>,
    title: string,
    sponsors: seq<Sponsor>,
    description: string,
    descriptionLanguage: string)

  /** The export `map`: every field copied, '' or [] standing in for a falsy one. */
  function ExportOf(r: Record): ExportRow {
    ExportRow(r.videoID, r.timeSubmitted, r.title, r.sponsors, r.description, r.descriptionLanguage)
  }

  /** Reads an exported object back as a row. */
  function RecordOf(e: ExportRow): Record {
    Record(e.timeSubmitted, e.videoID, e.title, e.sponsors, e.description, e.descriptionLanguage)
  }

  /** The export loses nothing: each object reads back as its row, in order. */
  lemma ExportRoundTrip(rows: seq<Record>)
    ensures |Map(rows, ExportOf)| == |rows|
    ensures forall i :: 0 <= i < |rows| ==> RecordOf(Map(rows, ExportOf)[i]) == rows[i]
  {
  }
}
