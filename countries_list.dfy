/**
 * The list page (src/components/CountriesListClient.tsx): the five URL parameters it
 * reads, the filter/filter/sort pipeline, pagination, the five-button page window
 * with Previous/Next, the debounced search box and the `pageSize` canonicalising
 * effect.
 */
module CountriesList {

  import opened Wrappers
  import opened Ecma
  import opened Seqs
  import opened SearchParams
  import opened Url
  import opened Countries

  /** `DEFAULT_PAGE_SIZE` */
  const StandardPageSize: int := 15

  // ---------------------------------------------------------------------------
  // Decoding the URL

  /** What the page reads from the URL. */
  datatype ListQuery = ListQuery(
    query: string,
    region: string,
    page: Number,
    pageSize: Number,
    sortByDistance: bool)

  /** `searchParams.get(name) || fallback`: both null and `""` are falsy. */
  function OrElse(v: Option<string>, fallback: string): (r: string)
    ensures r == fallback || v == Some(r)
    ensures v.Some? && v.value != "" ==> r == v.value
    ensures v.None? || v.value == "" ==> r == fallback
  {
    if v.Some? && v.value != "" then v.value else fallback
  }

  /** `searchQuery`: `get("query") || ""` */
  function QueryOf(p: Params): string {
    OrElse(Get(p, "query"), "")
  }

  /** `selectedContinent`: `get("region") || "All"` */
  function RegionOf(p: Params): string {
    OrElse(Get(p, "region"), "All")
  }

  /** `currentPage`: `parseInt(get("page") || "1")` */
  function PageOf(p: Params): (n: Number)
    ensures n != Infinity
  {
    ParseInt(OrElse(Get(p, "page"), "1"))
  }

  /** `pageSize`: `parseInt(get("pageSize") || DEFAULT_PAGE_SIZE.toString())` */
  function PageSizeOf(p: Params): (n: Number)
    ensures n != Infinity
  {
    ParseInt(OrElse(Get(p, "pageSize"), NumberToText(Int(StandardPageSize))))
  }

  /** `sortByDistance`: `get("sortByDistance") === "true"` */
  predicate SortOf(p: Params) {
    Get(p, "sortByDistance") == Some("true")
  }

  /** The five parameters as the page reads them; `parseInt` never yields Infinity. */
  function Decode(p: Params): (q: ListQuery)
    ensures q.page != Infinity && q.pageSize != Infinity
  {
    ListQuery(QueryOf(p), RegionOf(p), PageOf(p), PageSizeOf(p), SortOf(p))
  }

  /** The texts of the two numeric defaults read back as 1 and 15. */
  lemma ParseDefaults()
    ensures ParseInt("1") == Int(1)
    ensures ParseInt(NumberToText(Int(StandardPageSize))) == Int(StandardPageSize)
  {
    ParseIntOfText(Int(1));
    assert NumberToText(Int(1)) == "1";
    ParseIntOfText(Int(StandardPageSize));
  }

  /** An absent parameter reads as its default: no query, every region, page 1, 15 per page, no sort. */
  lemma DecodeDefaults(p: Params)
    requires Get(p, "query") == None && Get(p, "region") == None && Get(p, "page") == None
    requires Get(p, "pageSize") == None && Get(p, "sortByDistance") == None
    ensures Decode(p) == ListQuery("", "All", Int(1), Int(StandardPageSize), false)
  {
    ParseDefaults();
  }

  /** Only the exact text `"true"` turns the distance sort on. */
  lemma SortFlagIsExact(p: Params, text: string)
    requires Get(p, "sortByDistance") == Some(text)
    ensures Decode(p).sortByDistance <==> text == "true"
  {
  }

  /** The updates that write a whole query into the URL, one per parameter. */
  function Encode(q: ListQuery): seq<Update> {
    [("query", Str(q.query)), ("region", Str(q.region)), ("page", Num(q.page)),
     ("pageSize", Num(q.pageSize)), ("sortByDistance", Bool(q.sortByDistance))]
  }

  /** Each parameter of an encoded query ends up deleted or holding its text. */
  lemma GetAfterEncode(p: Params, q: ListQuery, rule: Rule, i: nat)
    requires i < 5
    ensures var u := Encode(q)[i];
      Get(ApplyAll(p, Encode(q), rule), u.0) == if Elides(rule, u.0, u.1) then None else Some(ToText(u.1))
  {
    var us := Encode(q);
    assert DistinctKeys(us);
    LastUpdateOfDistinct(us, i);
    ValuesAfterUpdates(p, us, rule, us[i].0);
  }

  /** A numeric parameter with default `d` reads back as the number written. */
  lemma NumberReadsBack(got: Option<string>, x: Number, d: int)
    requires x != Infinity
    requires got == if StrictEquals(x, Int(d)) then None else Some(NumberToText(x))
    ensures ParseInt(OrElse(got, NumberToText(Int(d)))) == x
  {
    ParseIntOfText(x);
    ParseIntOfText(Int(d));
    if got.Some? {
      assert NumberToText(x) != "" by {
        if x.Int? {
          assert |DecimalDigits(if x.v < 0 then -x.v else x.v)| >= 1;
        }
      }
    }
  }

  /** The page number reads back as written. */
  lemma PageRoundTrip(p: Params, q: ListQuery, rule: Rule)
    requires q.page != Infinity
    ensures PageOf(ApplyAll(p, Encode(q), rule)) == q.page
  {
    GetAfterEncode(p, q, rule, 2);
    NumberReadsBack(Get(ApplyAll(p, Encode(q), rule), "page"), q.page, 1);
    assert NumberToText(Int(1)) == "1";
  }

  /** The page size reads back as written. */
  lemma PageSizeRoundTrip(p: Params, q: ListQuery, rule: Rule)
    requires rule.defaultPageSize == Int(StandardPageSize) && q.pageSize != Infinity
    ensures PageSizeOf(ApplyAll(p, Encode(q), rule)) == q.pageSize
  {
    GetAfterEncode(p, q, rule, 3);
    NumberReadsBack(Get(ApplyAll(p, Encode(q), rule), "pageSize"), q.pageSize, StandardPageSize);
  }

  /**
   * Reading back what was written gives the same query, whatever the other
   * parameters. Under the elision rule as written this needs a search text other
   * than `"All"`; under the intended rule it does not.
   */
  lemma RoundTrip(p: Params, q: ListQuery, rule: Rule)
    requires rule.defaultPageSize == Int(StandardPageSize)
    requires q.region != "" && q.page != Infinity && q.pageSize != Infinity
    requires rule.AsWritten? ==> q.query != "All"
    ensures Decode(ApplyAll(p, Encode(q), rule)) == q
  {
    var r := ApplyAll(p, Encode(q), rule);
    PageRoundTrip(p, q, rule);
    PageSizeRoundTrip(p, q, rule);
    TextsRoundTrip(p, q, rule);
    FieldsMakeQuery(r, q);
  }

  /** The search text, the region and the sort flag read back as written. */
  lemma TextsRoundTrip(p: Params, q: ListQuery, rule: Rule)
    requires q.region != "" && (rule.AsWritten? ==> q.query != "All")
    ensures var r := ApplyAll(p, Encode(q), rule);
      QueryOf(r) == q.query && RegionOf(r) == q.region && SortOf(r) == q.sortByDistance
  {
    GetAfterEncode(p, q, rule, 0);
    GetAfterEncode(p, q, rule, 1);
    GetAfterEncode(p, q, rule, 4);
  }

  /** Decoding reads nothing but the five fields. */
  lemma FieldsMakeQuery(r: Params, q: ListQuery)
    requires QueryOf(r) == q.query && RegionOf(r) == q.region && PageOf(r) == q.page
    requires PageSizeOf(r) == q.pageSize && SortOf(r) == q.sortByDistance
    ensures Decode(r) == q
  {
  }

  /** As written, a search for the text `"All"` is written as no search at all. */
  lemma SearchForAllIsLost(p: Params)
    ensures QueryOf(ApplyAll(p, [("query", Str("All"))], AsWritten(Int(StandardPageSize)))) == ""
  {
    ValuesAfterUpdates(p, [("query", Str("All"))], AsWritten(Int(StandardPageSize)), "query");
  }

  // ---------------------------------------------------------------------------
  // Filtering

  /** The lower-cased common name contains the lower-cased query. */
  predicate TextMatches(query: string, c: Country) {
    Includes(ToLowerCase(c.name), ToLowerCase(query))
  }

  function MatchesText(query: string): Country -> bool {
    (c: Country) => TextMatches(query, c)
  }

  function InRegion(region: string): Country -> bool {
    (c: Country) => c.region == region
  }

  /** The text filter, applied only to a non-empty query. */
  function TextFilter(s: seq<Country>, query: string): seq<Country> {
    if query != "" then Filter(s, MatchesText(query)) else s
  }

  /** The region filter, applied unless the region is `"All"`. */
  function RegionFilter(s: seq<Country>, region: string): seq<Country> {
    if region != "All" then Filter(s, InRegion(region)) else s
  }

  /** Both filters, in the page's order. */
  function Filtered(s: seq<Country>, q: ListQuery): seq<Country> {
    RegionFilter(TextFilter(s, q.query), q.region)
  }

  /** The text filter keeps exactly the matching countries; an empty query matches every name. */
  lemma TextFilterMembers(s: seq<Country>, query: string, c: Country)
    ensures c in TextFilter(s, query) <==> c in s && TextMatches(query, c)
  {
    if query == "" {
      assert ToLowerCase(query) == "";
      IncludesEmpty(ToLowerCase(c.name));
    } else {
      FilterMembers(s, MatchesText(query), c);
    }
  }

  /** Skipping the text filter for an empty query is only a shortcut: filtering would keep everything. */
  lemma EmptyQueryKeepsAll(s: seq<Country>)
    ensures Filter(s, MatchesText("")) == s
  {
    forall c | c in s ensures MatchesText("")(c) {
      assert ToLowerCase("") == "";
      IncludesEmpty(ToLowerCase(c.name));
    }
    FilterKeepAll(s, MatchesText(""));
  }

  lemma RegionFilterMembers(s: seq<Country>, region: string, c: Country)
    ensures c in RegionFilter(s, region) <==> c in s && (region == "All" || c.region == region)
  {
    if region != "All" {
      FilterMembers(s, InRegion(region), c);
    }
  }

  /** The filtered list holds exactly the countries that pass both filters ... */
  lemma FilteredMembers(s: seq<Country>, q: ListQuery, c: Country)
    ensures c in Filtered(s, q) <==>
      c in s && TextMatches(q.query, c) && (q.region == "All" || c.region == q.region)
  {
    TextFilterMembers(s, q.query, c);
    RegionFilterMembers(TextFilter(s, q.query), q.region, c);
  }

  /** ... in their original order. */
  lemma FilteredIsSubsequence(s: seq<Country>, q: ListQuery)
    ensures IsSubsequence(Filtered(s, q), s)
  {
    var t := TextFilter(s, q.query);
    if q.query != "" {
      FilterIsSubsequence(s, MatchesText(q.query));
    } else {
      SubsequenceReflexive(s);
    }
    if q.region != "All" {
      FilterIsSubsequence(t, InRegion(q.region));
    } else {
      SubsequenceReflexive(t);
    }
    SubsequenceTransitive(Filtered(s, q), t, s);
  }

  /**
   * `filteredCountries`: copy the input, narrow it in stages, and sort a copy in
   * place when the distance sort is on and the user's position is known.
   */
  method FilteredCountries(initialCountries: seq<Country>, q: ListQuery,
                           userLocation: Option<Location>, distance: Distance)
    returns (filtered: seq<Country>)
    ensures !(q.sortByDistance && userLocation.Some?) ==> filtered == Filtered(initialCountries, q)
    ensures q.sortByDistance && userLocation.Some? ==>
      && multiset(filtered) == multiset(Filtered(initialCountries, q))
      && NearestFirst(filtered, userLocation.value, distance)
      && Filter(filtered, NotLocated) == Filter(Filtered(initialCountries, q), NotLocated)
      && forall d :: Filter(filtered, AtDistance(userLocation.value, distance, d)) ==
                     Filter(Filtered(initialCountries, q), AtDistance(userLocation.value, distance, d))
  {
    filtered := initialCountries;
    if q.query != "" {
      filtered := Filter(filtered, MatchesText(q.query));
    }
    if q.region != "All" {
      filtered := Filter(filtered, InRegion(q.region));
    }
    if q.sortByDistance && userLocation.Some? {
      var copy := new Country[|filtered|](i requires 0 <= i < |filtered| => filtered[i]);
      assert copy[..] == filtered;
      SortNearestFirst(copy, userLocation.value, distance);
      filtered := copy[..];
    }
  }

  // ---------------------------------------------------------------------------
  // Pagination

  /**
   * `Math.ceil(filteredCountries.length / pageSize)`: for a positive page size, the
   * fewest pages of that size that hold all entries.
   */
  function TotalPages(count: nat, pageSize: Number): (r: Number)
    ensures pageSize.Int? && pageSize.v > 0 ==>
      r.Int? && (r.v - 1) * pageSize.v < count <= r.v * pageSize.v
  {
    CeilDivBounds(count, pageSize);
    CeilDiv(count, pageSize)
  }

  /** `ceil(n / k)` pages of `k` entries hold `n` entries, and one page fewer does not. */
  lemma CeilDivBounds(n: nat, size: Number)
    ensures size.Int? && size.v > 0 ==>
      CeilDiv(n, size).Int? && (CeilDiv(n, size).v - 1) * size.v < n <= CeilDiv(n, size).v * size.v
  {
    if size.Int? && size.v > 0 {
      var k := size.v;
      var t := (n + k - 1) / k;
      assert n + k - 1 == t * k + (n + k - 1) % k;
      PageBounds(t, k);
    }
  }

  /**
   * `filteredCountries.slice((currentPage - 1) * pageSize, currentPage * pageSize)`:
   * a piece of the list, and nothing at all when the page or the page size is NaN.
   */
  function PageSlice<T>(s: seq<T>, page: Number, pageSize: Number): (r: seq<T>)
    requires page != Infinity && pageSize != Infinity
    ensures |r| <= |s|
    ensures page == NaN || pageSize == NaN ==> r == []
  {
    Slice(s, Times(Plus(page, -1), pageSize), Times(page, pageSize))
  }

  /** `(p - 1) * k` and `p * k` are `k` apart; the page-slice lemmas use it to measure a page. */
  lemma PageBounds(p: int, k: int)
    ensures (p - 1) * k == p * k - k
  {
  }

  /** A page never holds more than `pageSize` entries, whatever the page number. */
  lemma PageSliceBound<T>(s: seq<T>, page: Number, k: int)
    requires page != Infinity && k > 0
    ensures |PageSlice(s, page, Int(k))| <= k
  {
    if page.Int? {
      PageBounds(page.v, k);
    }
  }

  /** The entries `[(p - 1) * k, p * k)` of `s`, cut at its end. */
  function Block<T>(s: seq<T>, p: int, k: int): seq<T>
    requires p >= 1 && k >= 1
  {
    MulNonNegative(p - 1, k);
    PageBounds(p, k);
    if (p - 1) * k < |s| then s[(p - 1) * k .. if p * k < |s| then p * k else |s|] else []
  }

  /** For a page number of at least 1 the page is the block of `pageSize` entries it names, cut at the end. */
  lemma {:induction false} PageSliceContents<T>(s: seq<T>, p: int, k: int)
    requires p >= 1 && k > 0
    ensures PageSlice(s, Int(p), Int(k)) == Block(s, p, k)
  {
    PageBounds(p, k);
    MulNonNegative(p - 1, k);
  }

  /** The start `(p - 1) * k` of a page from 1 on is not negative, so `slice` does not count it from the end. */
  lemma MulNonNegative(a: int, b: int)
    requires a >= 0 && b >= 0
    ensures a * b >= 0
  {
  }

  /** A later page starts no earlier; `PastLastPage` compares page starts with it. */
  lemma {:induction false} MulMonotone(a: int, b: int, k: int)
    requires a <= b && k >= 0
    ensures a * k <= b * k
  {
    MulNonNegative(b - a, k);
    assert (b - a) * k == b * k - a * k;
  }

  /** The block starts at `(p - 1) * k`, is empty exactly when that is past the end, and copies `s` from there. */
  lemma BlockShape<T>(s: seq<T>, p: int, k: int)
    requires p >= 1 && k >= 1
    ensures (p - 1) * k >= 0
    ensures Block(s, p, k) == [] <==> (p - 1) * k >= |s|
    ensures forall j :: 0 <= j < |Block(s, p, k)| ==> Block(s, p, k)[j] == s[(p - 1) * k + j]
    ensures (p - 1) * k < |s| ==> |Block(s, p, k)| == (if p * k < |s| then p * k else |s|) - (p - 1) * k
  {
    MulNonNegative(p - 1, k);
    PageBounds(p, k);
  }

  /** `(p - 1) * k >= n` exactly when `p` exceeds `ceil(n / k)`. */
  lemma {:induction false} PastLastPage(n: nat, p: int, k: int)
    requires p >= 1 && k > 0
    ensures (p - 1) * k >= n <==> p > (n + k - 1) / k
  {
    var t := (n + k - 1) / k;
    assert n + k - 1 == t * k + (n + k - 1) % k;
    PageBounds(t, k);
    if p > t {
      MulMonotone(t, p - 1, k);
    } else {
      MulMonotone(p - 1, t - 1, k);
    }
  }

  /** A page from 1 on is empty exactly when its number exceeds the page count. */
  lemma {:induction false} PageEmptyBeyondLast<T>(s: seq<T>, p: int, k: int)
    requires p >= 1 && k > 0
    ensures PageSlice(s, Int(p), Int(k)) == [] <==> Greater(Int(p), TotalPages(|s|, Int(k)))
  {
    assert TotalPages(|s|, Int(k)) == Int((|s| + k - 1) / k);
    PageSliceContents(s, p, k);
    BlockShape(s, p, k);
    PastLastPage(|s|, p, k);
  }

  /** Every entry is on page `i / pageSize + 1`, which is a page the pager counts, at position `i % pageSize`. */
  lemma {:induction false} EveryEntryOnItsPage<T>(s: seq<T>, k: int, i: nat)
    requires k > 0 && i < |s|
    ensures var p := i / k + 1;
      && LessEq(Int(p), TotalPages(|s|, Int(k)))
      && i % k < |PageSlice(s, Int(p), Int(k))|
      && PageSlice(s, Int(p), Int(k))[i % k] == s[i]
  {
    var p := i / k + 1;
    assert i == (p - 1) * k + i % k;
    PageBounds(p, k);
    PageSliceContents(s, p, k);
    BlockShape(s, p, k);
    PastLastPage(|s|, p, k);
  }

  // ---------------------------------------------------------------------------
  // The page window and Previous/Next

  /** `Array.from({ length: Math.min(5, totalPages) }, ...)` has this many buttons; NaN gives none. */
  function WindowLength(totalPages: Number): (n: nat)
    ensures n <= 5
  {
    match Min(Int(5), totalPages)
    case Int(v) => if v < 0 then 0 else v
    case _ => 0
  }

  /** The page number on button `i`. */
  function PageNumberAt(totalPages: Number, currentPage: Number, i: int): Number {
    if LessEq(totalPages, Int(5)) then Int(i + 1)
    else if LessEq(currentPage, Int(3)) then Int(i + 1)
    else if LessEq(Plus(totalPages, -2), currentPage) then Plus(totalPages, -4 + i)
    else Plus(currentPage, -2 + i)
  }

  /** The page buttons: never more than five. */
  function Window(totalPages: Number, currentPage: Number): (w: seq<Number>)
    ensures |w| <= 5
  {
    seq(WindowLength(totalPages), i => PageNumberAt(totalPages, currentPage, i))
  }

  /**
   * When the pager is shown (`totalPages > 1`, which holds for Infinity too), its
   * buttons are `min(5, totalPages)` consecutive page numbers from 1 on, none past the
   * last page, for any integer current page, and they include the current page when
   * that page exists. A NaN current page (`?page=abc`) gives the same for at most
   * five pages, but five NaN buttons beyond.
   */
  lemma {:induction false} WindowInRange(t: Number, c: Number)
    requires Greater(t, Int(1)) && c != Infinity
    ensures |Window(t, c)| == if t.Int? && t.v < 5 then t.v else 5
    ensures c.Int? || LessEq(t, Int(5)) ==> forall i :: 0 <= i < |Window(t, c)| ==>
      Window(t, c)[i].Int? && 1 <= Window(t, c)[i].v && LessEq(Window(t, c)[i], t)
    ensures c.Int? || LessEq(t, Int(5)) ==> forall i :: 0 < i < |Window(t, c)| ==>
      Window(t, c)[i] == Plus(Window(t, c)[i - 1], 1)
    ensures c.Int? && 1 <= c.v && LessEq(c, t) ==> c in Window(t, c)
    ensures c == NaN && !LessEq(t, Int(5)) ==>
      forall i :: 0 <= i < |Window(t, c)| ==> Window(t, c)[i] == NaN
  {
    var w := Window(t, c);
    var small := t.Int? && t.v <= 5;
    if c.Int? {
      var first :=
        if small || c.v <= 3 then 1
        else if t.Int? && t.v - 2 <= c.v then t.v - 4
        else c.v - 2;
      assert forall i :: 0 <= i < |w| ==> w[i] == Int(first + i);
      if 1 <= c.v && LessEq(c, t) {
        assert w[c.v - first] == c;
      }
    } else if small {
      assert forall i :: 0 <= i < |w| ==> w[i] == Int(1 + i);
    }
  }

  /** The target of Previous: `Math.max(1, currentPage - 1)`. */
  function PreviousPage(currentPage: Number): Number {
    Max(Int(1), Plus(currentPage, -1))
  }

  /** The target of Next: `Math.min(totalPages, currentPage + 1)`. */
  function NextPage(totalPages: Number, currentPage: Number): Number {
    Min(totalPages, Plus(currentPage, 1))
  }

  predicate PreviousDisabled(currentPage: Number) {
    StrictEquals(currentPage, Int(1))
  }

  predicate NextDisabled(totalPages: Number, currentPage: Number) {
    StrictEquals(currentPage, totalPages)
  }

  /**
   * Previous never goes below page 1 and Next never past the last page; from an
   * existing page an enabled button moves exactly one page, and a button is
   * disabled exactly on the first (Previous) or last (Next) page. With Infinity
   * pages (`?pageSize=0`) Next is never disabled; with a NaN current page both
   * buttons are enabled and both lead to NaN.
   */
  lemma PreviousNext(t: Number, c: Number)
    requires LessEq(Int(1), t) && c != Infinity
    ensures c.Int? ==> PreviousPage(c).Int? && PreviousPage(c).v >= 1
    ensures c.Int? ==> NextPage(t, c).Int? && LessEq(NextPage(t, c), t)
    ensures c.Int? && 1 <= c.v && LessEq(c, t) ==>
      && (PreviousDisabled(c) <==> c.v == 1)
      && (NextDisabled(t, c) <==> t == c)
      && (!PreviousDisabled(c) ==> PreviousPage(c) == Int(c.v - 1))
      && (!NextDisabled(t, c) ==> NextPage(t, c) == Int(c.v + 1))
    ensures t == Infinity ==> !NextDisabled(t, c)
    ensures c == NaN ==>
      && !PreviousDisabled(c) && PreviousPage(c) == NaN
      && !NextDisabled(t, c) && NextPage(t, c) == NaN
  {
  }

  // ---------------------------------------------------------------------------
  // Unvalidated page numbers

  /**
   * The page number and page size the pager should have used: anything that is not
   * a positive integer falls back to its default.
   */
  function Checked(q: ListQuery): (r: ListQuery)
    ensures r.page.Int? && r.page.v >= 1 && r.pageSize.Int? && r.pageSize.v >= 1
    ensures r.query == q.query && r.region == q.region && r.sortByDistance == q.sortByDistance
    ensures q.page.Int? && q.page.v >= 1 ==> r.page == q.page
    ensures q.pageSize.Int? && q.pageSize.v >= 1 ==> r.pageSize == q.pageSize
  {
    q.(page := if q.page.Int? && q.page.v >= 1 then q.page else Int(1),
       pageSize := if q.pageSize.Int? && q.pageSize.v >= 1 then q.pageSize else Int(StandardPageSize))
  }

  /**
   * As written, a negative `?page=` such as `-1` is not rejected: `slice` counts
   * negative bounds from the end, so with one entry per page, page `v < 0` shows the
   * entry `-v + 1` places from the end of the list instead of nothing.
   */
  lemma NegativePageShowsEntries(p: Params, s: seq<Country>, v: int)
    requires v < 0 && Get(p, "page") == Some(NumberToText(Int(v))) && |s| + v >= 1
    ensures PageOf(p) == Int(v)
    ensures PageSlice(s, Int(v), Int(1)) == [s[|s| + v - 1]]
  {
    NegativePageDecoded(p, v);
    assert Times(Plus(Int(v), -1), Int(1)) == Int(v - 1);
    assert RelativeIndex(Int(v - 1), |s|) == |s| + v - 1;
  }

  /** The negative page number survives decoding unchanged. */
  lemma NegativePageDecoded(p: Params, v: int)
    requires v < 0 && Get(p, "page") == Some(NumberToText(Int(v)))
    ensures PageOf(p) == Int(v)
  {
    assert OrElse(Get(p, "page"), "1") == NumberToText(Int(v));
    ParseIntOfText(Int(v));
  }

  /**
   * ... and `?pageSize=-1` shows every entry but the last on page 1, while the page
   * count is negative, so no pager is shown.
   */
  lemma NegativePageSizeShowsEntries(s: seq<Country>)
    requires |s| >= 1
    ensures PageSlice(s, Int(1), Int(-1)) == s[..|s| - 1]
    ensures TotalPages(|s|, Int(-1)) == Int(-|s|)
  {
  }

  /**
   * As written, a page text that does not start with a digit, a sign or white space
   * (`?page=abc`) decodes to NaN ...
   */
  lemma NonNumericPageDecoded(p: Params, text: string)
    requires Get(p, "page") == Some(text) && text != []
    requires DigitValue(text[0]) >= 10 && !IsWhiteSpace(text[0]) && text[0] != '-' && text[0] != '+'
    ensures PageOf(p) == NaN
  {
    assert OrElse(Get(p, "page"), "1") == text;
    assert TrimStart(text) == text;
  }

  /**
   * ... so the page shows no entries, and with more than five pages every page button
   * is NaN while Previous and Next are both enabled and both lead to page NaN again.
   */
  lemma NonNumericPageStrands(p: Params, text: string, s: seq<Country>, t: int)
    requires Get(p, "page") == Some(text) && text != []
    requires DigitValue(text[0]) >= 10 && !IsWhiteSpace(text[0]) && text[0] != '-' && text[0] != '+'
    requires t > 5
    ensures PageSlice(s, PageOf(p), PageSizeOf(p)) == []
    ensures forall i :: 0 <= i < |Window(Int(t), PageOf(p))| ==> Window(Int(t), PageOf(p))[i] == NaN
    ensures !PreviousDisabled(PageOf(p)) && PreviousPage(PageOf(p)) == NaN
    ensures !NextDisabled(Int(t), PageOf(p)) && NextPage(Int(t), PageOf(p)) == NaN
  {
    NonNumericPageDecoded(p, text);
    WindowInRange(Int(t), NaN);
    PreviousNext(Int(t), NaN);
  }

  /**
   * As written, `?pageSize=0` is kept as page size 0: over a non-empty list the page
   * count is Infinity, so the pager is shown, every page is empty, and Next is never
   * disabled and always leads one page further.
   */
  lemma ZeroPageSizeEndless(p: Params, s: seq<Country>, c: Number)
    requires Get(p, "pageSize") == Some(NumberToText(Int(0))) && |s| >= 1 && c != Infinity
    ensures PageSizeOf(p) == Int(0)
    ensures TotalPages(|s|, PageSizeOf(p)) == Infinity && Greater(Infinity, Int(1))
    ensures PageSlice(s, c, PageSizeOf(p)) == []
    ensures !NextDisabled(Infinity, c)
    ensures c.Int? ==> NextPage(Infinity, c) == Int(c.v + 1)
  {
    assert OrElse(Get(p, "pageSize"), NumberToText(Int(StandardPageSize))) == NumberToText(Int(0));
    ParseIntOfText(Int(0));
    if c.Int? {
      assert Times(Plus(c, -1), Int(0)) == Int(0) && Times(c, Int(0)) == Int(0);
    }
    PreviousNext(Infinity, c);
  }

  /**
   * With the checked page size the page count is a finite number, and exactly the
   * pages past it are empty.
   */
  lemma CheckedPagesEnd(s: seq<Country>, q: ListQuery, page: int)
    requires page >= 1
    ensures var k := Checked(q).pageSize;
      && TotalPages(|s|, k).Int?
      && (PageSlice(s, Int(page), k) == [] <==> Greater(Int(page), TotalPages(|s|, k)))
  {
    PageEmptyBeyondLast(s, page, Checked(q).pageSize.v);
  }

  /**
   * With the checked page the pager is sound: every button and both targets are
   * pages in `[1, totalPages]`, and the current page is among the buttons when it exists.
   */
  lemma CheckedPager(q: ListQuery, t: int)
    requires t > 1
    ensures var c := Checked(q).page;
      && (forall i :: 0 <= i < |Window(Int(t), c)| ==> Window(Int(t), c)[i].Int? && 1 <= Window(Int(t), c)[i].v <= t)
      && (c.v <= t ==> c in Window(Int(t), c))
      && PreviousPage(c).Int? && 1 <= PreviousPage(c).v
      && NextPage(Int(t), c).Int? && NextPage(Int(t), c).v <= t
  {
    var c := Checked(q).page;
    WindowInRange(Int(t), c);
    PreviousNext(Int(t), c);
  }

  /** With the checked values every page is the block it names and no larger than the page size. */
  lemma {:induction false} CheckedPageIsBlock(s: seq<Country>, q: ListQuery)
    ensures var c := Checked(q);
      && PageSlice(s, c.page, c.pageSize) == Block(s, c.page.v, c.pageSize.v)
      && |PageSlice(s, c.page, c.pageSize)| <= c.pageSize.v
  {
    var c := Checked(q);
    PageSliceContents(s, c.page.v, c.pageSize.v);
    PageSliceBound(s, c.page, c.pageSize.v);
  }

  // ---------------------------------------------------------------------------
  // The debounced search box

  /** What the timer writes: the buffered text as `query`, back to page 1. */
  function CommitUpdates(text: string): seq<Update> {
    [("query", Str(text)), ("page", Num(Int(1)))]
  }

  /**
   * The search box state: the committed URL parameters, the text in the box, and
   * whether the 300 ms timer is armed. Each method is one event; the timer's firing
   * is `Tick`, and the router completing a navigation is `Navigate`.
   */
  class SearchSync {
    var params: Params
    var localQuery: string
    var timerPending: bool

    /** Mounting: the box starts with the committed query, and the effect arms the timer. */
    constructor(p: Params)
      ensures params == p && localQuery == QueryOf(p) && timerPending
    {
      params := p;
      localQuery := QueryOf(p);
      timerPending := true;
    }

    /** The user types: a different text replaces the buffer and restarts the timer. */
    method Edit(text: string)
      modifies this
      ensures params == old(params) && localQuery == text
      ensures timerPending == (old(timerPending) || text != old(localQuery))
    {
      if text != localQuery {
        localQuery := text;
        timerPending := true;
      }
    }

    /**
     * The URL changed: when the committed query changed, it overwrites the buffer;
     * the changed parameters restart the timer.
     */
    method Navigate(next: Params)
      modifies this
      ensures params == next
      ensures localQuery ==
        if QueryOf(next) != QueryOf(old(params)) then QueryOf(next) else old(localQuery)
      ensures timerPending == (old(timerPending) || next != old(params))
    {
      if next != params {
        var previousQuery := QueryOf(params);
        params := next;
        if QueryOf(next) != previousQuery {
          localQuery := QueryOf(next);
        }
        timerPending := true;
      }
    }

    /**
     * The timer fires: when the buffer differs from the committed query, ask the
     * router for the URL with the buffer as the query and page 1.
     */
    method Tick() returns (replaced: Option<string>)
      modifies this
      ensures params == old(params) && localQuery == old(localQuery) && !timerPending
      ensures replaced.Some? <==> old(timerPending) && QueryOf(params) != localQuery
      ensures replaced.Some? ==>
        replaced.value == SearchUrl(params, CommitUpdates(localQuery), Some(Int(StandardPageSize)))
    {
      replaced := None;
      if timerPending {
        timerPending := false;
        if QueryOf(params) != localQuery {
          var url := BuildSearchUrl(params, CommitUpdates(localQuery), Some(Int(StandardPageSize)));
          replaced := Some(url);
        }
      }
    }

    /**
     * One debounce cycle: the timer fires, the router lands on the parameters that
     * the commit wrote, and the timer fires again. Unless the text is `"All"`, the
     * box keeps its text and the second tick navigates nowhere.
     */
    method CommitCycle() returns (first: Option<string>, second: Option<string>)
      modifies this
      ensures first.None? ==> params == old(params) && second.None?
      ensures first.Some? ==>
        && params == ApplyAll(old(params), CommitUpdates(old(localQuery)), AsWritten(Int(StandardPageSize)))
        && first.value == QueryString(params)
      ensures old(localQuery) != "All" ==> localQuery == old(localQuery) && second.None?
    {
      first := Tick();
      if first.Some? {
        var text := localQuery;
        var next := ApplyAll(params, CommitUpdates(text), AsWritten(Int(StandardPageSize)));
        if text != "All" {
          CommitWritesQuery(params, text, AsWritten(Int(StandardPageSize)));
        }
        Navigate(next);
      }
      second := Tick();
    }

    /** Unmounting clears the timer. */
    method Dispose()
      modifies this
      ensures params == old(params) && localQuery == old(localQuery) && !timerPending
    {
      timerPending := false;
    }
  }

  /**
   * After the commit's navigation the URL holds the buffered text and page 1, and
   * every other setting is what it was; so the box is not overwritten and the next
   * tick commits nothing. As written this needs a text other than `"All"`.
   */
  lemma {:induction false} CommitSettles(p: Params, text: string, rule: Rule)
    requires rule.defaultPageSize == Int(StandardPageSize)
    requires rule.AsWritten? ==> text != "All"
    ensures var r := ApplyAll(p, CommitUpdates(text), rule);
      && QueryOf(r) == text && PageOf(r) == Int(1)
      && RegionOf(r) == RegionOf(p) && PageSizeOf(r) == PageSizeOf(p) && SortOf(r) == SortOf(p)
  {
    CommitWritesQuery(p, text, rule);
    CommitResetsPage(p, text, rule);
    CommitKeepsOthers(p, text, rule);
  }

  lemma CommitWritesQuery(p: Params, text: string, rule: Rule)
    requires rule.AsWritten? ==> text != "All"
    ensures QueryOf(ApplyAll(p, CommitUpdates(text), rule)) == text
  {
    var us := CommitUpdates(text);
    assert LastUpdate(us, "query") == Some(Str(text));
    ValuesAfterUpdates(p, us, rule, "query");
  }

  lemma CommitResetsPage(p: Params, text: string, rule: Rule)
    ensures PageOf(ApplyAll(p, CommitUpdates(text), rule)) == Int(1)
  {
    var us := CommitUpdates(text);
    assert LastUpdate(us, "page") == Some(Num(Int(1)));
    ValuesAfterUpdates(p, us, rule, "page");
    ParseDefaults();
  }

  lemma CommitKeepsOthers(p: Params, text: string, rule: Rule)
    ensures var r := ApplyAll(p, CommitUpdates(text), rule);
      && Get(r, "region") == Get(p, "region")
      && Get(r, "pageSize") == Get(p, "pageSize")
      && Get(r, "sortByDistance") == Get(p, "sortByDistance")
  {
    var us := CommitUpdates(text);
    LastUpdateAbsent(us, "region");
    LastUpdateAbsent(us, "pageSize");
    LastUpdateAbsent(us, "sortByDistance");
    ValuesAfterUpdates(p, us, rule, "region");
    ValuesAfterUpdates(p, us, rule, "pageSize");
    ValuesAfterUpdates(p, us, rule, "sortByDistance");
  }

  /** As written, committing the text `"All"` writes no query at all. */
  lemma CommitOfAllIsLost(p: Params)
    ensures QueryOf(ApplyAll(p, CommitUpdates("All"), AsWritten(Int(StandardPageSize)))) == ""
  {
    var us := CommitUpdates("All");
    assert LastUpdate(us, "query") == Some(Str("All"));
    ValuesAfterUpdates(p, us, AsWritten(Int(StandardPageSize)), "query");
  }

  // ---------------------------------------------------------------------------
  // The pageSize effect

  /** The single update the effect makes: `pageSize` set to the parsed page size. */
  function PageSizeUpdate(p: Params): seq<Update> {
    [("pageSize", Num(PageSizeOf(p)))]
  }

  /** The effect asks for a new URL when the URL's text differs from the parsed size's text. */
  function PageSizeRewrite(p: Params): Option<string> {
    if Get(p, "pageSize") != Some(NumberToText(PageSizeOf(p)))
    then Some(SearchUrl(p, PageSizeUpdate(p), Some(Int(StandardPageSize))))
    else None
  }

  /** The parameters that URL names. */
  function Canonical(p: Params): Params {
    ApplyAll(p, PageSizeUpdate(p), AsWritten(Int(StandardPageSize)))
  }

  /**
   * The rewrite never changes what the page shows, and leaves `pageSize` absent for
   * the default and as the parsed number's text otherwise (`"015"` becomes absent,
   * `"20abc"` becomes `"20"`).
   */
  lemma {:induction false} CanonicalKeepsQuery(p: Params)
    ensures Decode(Canonical(p)) == Decode(p)
    ensures Get(Canonical(p), "pageSize") ==
      if PageSizeOf(p) == Int(StandardPageSize) then None else Some(NumberToText(PageSizeOf(p)))
  {
    CanonicalPageSize(p);
    CanonicalKeepsOthers(p);
    FieldsMakeQuery(Canonical(p), Decode(p));
  }

  lemma CanonicalPageSize(p: Params)
    ensures Get(Canonical(p), "pageSize") ==
      if PageSizeOf(p) == Int(StandardPageSize) then None else Some(NumberToText(PageSizeOf(p)))
    ensures PageSizeOf(Canonical(p)) == PageSizeOf(p)
  {
    var us := PageSizeUpdate(p);
    assert LastUpdate(us, "pageSize") == Some(Num(PageSizeOf(p)));
    ValuesAfterUpdates(p, us, AsWritten(Int(StandardPageSize)), "pageSize");
    NumberReadsBack(Get(Canonical(p), "pageSize"), PageSizeOf(p), StandardPageSize);
  }

  lemma CanonicalKeepsOthers(p: Params)
    ensures QueryOf(Canonical(p)) == QueryOf(p) && RegionOf(Canonical(p)) == RegionOf(p)
    ensures PageOf(Canonical(p)) == PageOf(p) && SortOf(Canonical(p)) == SortOf(p)
  {
    CanonicalKeepsKey(p, "query");
    CanonicalKeepsKey(p, "region");
    CanonicalKeepsKey(p, "page");
    CanonicalKeepsKey(p, "sortByDistance");
  }

  /** The rewrite leaves the value of every key but `pageSize` as it was. */
  lemma CanonicalKeepsKey(p: Params, key: string)
    requires key != "pageSize"
    ensures Get(Canonical(p), key) == Get(p, key)
  {
    var us := PageSizeUpdate(p);
    LastUpdateAbsent(us, key);
    ValuesAfterUpdates(p, us, AsWritten(Int(StandardPageSize)), key);
  }

  /** Firing again on the rewritten URL asks for that same URL: the effect does not ping-pong. */
  lemma CanonicalIsStable(p: Params)
    ensures Canonical(Canonical(p)) == Canonical(p)
    ensures PageSizeRewrite(Canonical(p)) == None || PageSizeRewrite(Canonical(p)) == Some(QueryString(Canonical(p)))
  {
    CanonicalKeepsQuery(p);
    assert PageSizeUpdate(Canonical(p)) == PageSizeUpdate(p);
    ApplyAllIdempotent(p, PageSizeUpdate(p), AsWritten(Int(StandardPageSize)));
  }
}
