/**
 * The country record (src/types/types.ts) as far as the list and favourites logic
 * read it, the capital-then-country coordinate fallback, and the "nearest first"
 * comparator of the list page with the in-place sort that uses it.
 */
module Countries {

  import opened Wrappers
  import opened Seqs

  /**
   * A country: `name.common`, `cca3`, `region`, the optional `latlng` array and the
   * optional `capitalInfo.latlng` array. The remaining fields are only displayed.
   */
  datatype Country = Country(
    name: string,
    cca3: string,
    region: string,
    latlng: Option<seq<real>>,
    capitalLatlng: Option<seq<real>>)

  /** The user's position as reported by the browser. */
  datatype Location = Location(lat: real, lon: real)

  /** `calculateDistance(lat1, lon1, lat2, lon2)`, left uninterpreted. */
  type Distance = (real, real, real, real) -> real

  /** `xs?.[i]` */
  function At(xs: Option<seq<real>>, i: nat): Option<real> {
    if xs.Some? && i < |xs.value| then Some(xs.value[i]) else None
  }

  /** `c.capitalInfo?.latlng?.[i] ?? c.latlng?.[i]` */
  function Component(c: Country, i: nat): Option<real> {
    match At(c.capitalLatlng, i)
    case Some(x) => Some(x)
    case None => At(c.latlng, i)
  }

  /** Neither `!lat` nor `!lon` holds: both resolved components exist and are non-zero. */
  predicate Located(c: Country) {
    && Component(c, 0).Some? && Component(c, 0).value != 0.0
    && Component(c, 1).Some? && Component(c, 1).value != 0.0
  }

  predicate NotLocated(c: Country) {
    !Located(c)
  }

  function DistanceFrom(c: Country, here: Location, distance: Distance): real
    requires Located(c)
  {
    distance(here.lat, here.lon, Component(c, 0).value, Component(c, 1).value)
  }

  /** The comparator given to `sort` on the list page. */
  function Compare(a: Country, b: Country, here: Location, distance: Distance): real {
    if !Located(a) then 1.0
    else if !Located(b) then -1.0
    else DistanceFrom(a, here, distance) - DistanceFrom(b, here, distance)
  }

  /** The comparator puts `a` strictly before `b`. */
  predicate Before(a: Country, b: Country, here: Location, distance: Distance) {
    Compare(a, b, here, distance) < 0.0
  }

  /** No entry is strictly before an earlier one. */
  predicate NearestFirst(s: seq<Country>, here: Location, distance: Distance) {
    forall i, j :: 0 <= i < j < |s| ==> !Before(s[j], s[i], here, distance)
  }

  /** `Before` is a strict weak order: "not before" is transitive. */
  lemma NotBeforeTransitive(a: Country, b: Country, c: Country, here: Location, distance: Distance)
    requires !Before(a, b, here, distance) && !Before(b, c, here, distance)
    ensures !Before(a, c, here, distance)
  {
  }

  /** ... and it is asymmetric. */
  lemma BeforeAsymmetric(a: Country, b: Country, here: Location, distance: Distance)
    requires Before(a, b, here, distance)
    ensures !Before(b, a, here, distance)
  {
  }

  /**
   * What nearest-first means: an entry without coordinates is never followed by one
   * with coordinates, and entries with coordinates are in ascending distance.
   */
  lemma NearestFirstMeaning(s: seq<Country>, here: Location, distance: Distance, i: nat, j: nat)
    requires NearestFirst(s, here, distance) && i < j < |s|
    ensures Located(s[j]) ==> Located(s[i])
    ensures Located(s[i]) && Located(s[j]) ==>
      DistanceFrom(s[i], here, distance) <= DistanceFrom(s[j], here, distance)
  {
    assert !Before(s[j], s[i], here, distance);
  }

  /**
   * Sort in place with the list page's comparator: an insertion sort that moves each
   * entry left past every entry it is strictly before. Entries without coordinates
   * are never strictly before anything, so they keep their relative order, and so
   * do located entries at the same distance.
   */
  method SortNearestFirst(a: array<Country>, here: Location, distance: Distance)
    modifies a
    ensures NearestFirst(a[..], here, distance)
    ensures multiset(a[..]) == multiset(old(a[..]))
    ensures Filter(a[..], NotLocated) == Filter(old(a[..]), NotLocated)
    ensures forall d :: Filter(a[..], AtDistance(here, distance, d)) ==
                        Filter(old(a[..]), AtDistance(here, distance, d))
  {
    var i := 0;
    while i < a.Length
      invariant 0 <= i <= a.Length
      invariant forall p, q :: 0 <= p < q < i ==> !Before(a[q], a[p], here, distance)
      invariant multiset(a[..]) == multiset(old(a[..]))
      invariant Filter(a[..], NotLocated) == Filter(old(a[..]), NotLocated)
      invariant forall d :: Filter(a[..], AtDistance(here, distance, d)) ==
                            Filter(old(a[..]), AtDistance(here, distance, d))
    {
      InsertLeft(a, i, here, distance);
      i := i + 1;
    }
    assert a[..] == a[..a.Length];
  }

  /** `s[..i + 1]` is in order, except possibly for pairs that involve position `j`. */
  predicate InOrderExcept(s: seq<Country>, j: nat, i: nat, here: Location, distance: Distance)
    requires i < |s|
  {
    forall p, q :: 0 <= p < q <= i && p != j && q != j ==> !Before(s[q], s[p], here, distance)
  }

  /** No entry of `s[j + 1..i + 1]` is strictly before `s[j]`. */
  predicate NoneBefore(s: seq<Country>, j: nat, i: nat, here: Location, distance: Distance)
    requires j <= i < |s|
  {
    forall q :: j < q <= i ==> !Before(s[q], s[j], here, distance)
  }

  /** `s` with positions `k` and `k + 1` exchanged. */
  function SwapNext(s: seq<Country>, k: nat): (t: seq<Country>)
    requires k + 1 < |s|
    ensures |t| == |s| && t[k] == s[k + 1] && t[k + 1] == s[k]
    ensures forall m :: 0 <= m < |s| && m != k && m != k + 1 ==> t[m] == s[m]
    ensures multiset(t) == multiset(s)
  {
    assert s == s[..k] + [s[k], s[k + 1]] + s[k + 2..];
    s[..k] + [s[k + 1], s[k]] + s[k + 2..]
  }

  /** One step of the inner loop: moving `s[j]` left past `s[j - 1]` keeps both invariants. */
  lemma {:induction false} InsertStep(s: seq<Country>, j: nat, i: nat, here: Location, distance: Distance)
    requires 0 < j <= i < |s|
    requires InOrderExcept(s, j, i, here, distance) && NoneBefore(s, j, i, here, distance)
    requires Before(s[j], s[j - 1], here, distance)
    ensures InOrderExcept(SwapNext(s, j - 1), j - 1, i, here, distance)
    ensures NoneBefore(SwapNext(s, j - 1), j - 1, i, here, distance)
  {
    var t := SwapNext(s, j - 1);
    forall p, q | 0 <= p < q <= i && p != j - 1 && q != j - 1
      ensures !Before(t[q], t[p], here, distance)
    {
      if q == j {
        assert t[q] == s[j - 1] && t[p] == s[p];
      } else if p == j {
        assert t[p] == s[j - 1] && t[q] == s[q];
      } else {
        assert t[p] == s[p] && t[q] == s[q];
      }
    }
    BeforeAsymmetric(s[j], s[j - 1], here, distance);
    forall q | j - 1 < q <= i ensures !Before(t[q], t[j - 1], here, distance) {
      if q > j {
        assert t[q] == s[q];
      }
    }
  }

  /** When the inner loop stops, `s[..i + 1]` is in order. */
  lemma {:induction false} InsertDone(s: seq<Country>, j: nat, i: nat, here: Location, distance: Distance)
    requires j <= i < |s|
    requires InOrderExcept(s, j, i, here, distance) && NoneBefore(s, j, i, here, distance)
    requires j == 0 || !Before(s[j], s[j - 1], here, distance)
    ensures forall p, q :: 0 <= p < q <= i ==> !Before(s[q], s[p], here, distance)
  {
    forall p, q | 0 <= p < q <= i ensures !Before(s[q], s[p], here, distance) {
      if q == j && p < j - 1 {
        NotBeforeTransitive(s[j], s[j - 1], s[p], here, distance);
      }
    }
  }

  /** Move `a[i]` left into the sorted prefix `a[..i]`, so that `a[..i + 1]` is sorted. */
  method InsertLeft(a: array<Country>, i: nat, here: Location, distance: Distance)
    requires i < a.Length
    requires forall p, q :: 0 <= p < q < i ==> !Before(a[q], a[p], here, distance)
    modifies a
    ensures forall p, q :: 0 <= p < q <= i ==> !Before(a[q], a[p], here, distance)
    ensures multiset(a[..]) == multiset(old(a[..]))
    ensures Filter(a[..], NotLocated) == Filter(old(a[..]), NotLocated)
    ensures forall d :: Filter(a[..], AtDistance(here, distance, d)) ==
                        Filter(old(a[..]), AtDistance(here, distance, d))
    ensures a[i + 1..] == old(a[i + 1..])
  {
    var j := i;
    while j > 0 && Before(a[j], a[j - 1], here, distance)
      invariant 0 <= j <= i
      invariant InOrderExcept(a[..], j, i, here, distance)
      invariant NoneBefore(a[..], j, i, here, distance)
      invariant multiset(a[..]) == multiset(old(a[..]))
      invariant Filter(a[..], NotLocated) == Filter(old(a[..]), NotLocated)
      invariant forall d :: Filter(a[..], AtDistance(here, distance, d)) ==
                            Filter(old(a[..]), AtDistance(here, distance, d))
      invariant a[i + 1..] == old(a[i + 1..])
    {
      InsertStep(a[..], j, i, here, distance);
      SwapKeepsUnlocated(a[..], j - 1);
      SwapKeepsTies(a[..], j - 1, here, distance);
      SwapKeepsTail(a[..], j - 1, i + 1);
      Swap(a, j - 1);
      j := j - 1;
    }
    InsertDone(a[..], j, i, here, distance);
  }

  /** An exchange of two neighbours before position `m` leaves the entries from `m` on alone. */
  lemma SwapKeepsTail(s: seq<Country>, k: nat, m: nat)
    requires k + 1 < m <= |s|
    ensures SwapNext(s, k)[m..] == s[m..]
  {
  }

  /** Exchange `a[k]` and `a[k + 1]`. */
  method Swap(a: array<Country>, k: nat)
    requires k + 1 < a.Length
    modifies a
    ensures a[..] == SwapNext(old(a[..]), k)
  {
    a[k], a[k + 1] := a[k + 1], a[k];
  }

  /** Swapping a located entry with its right neighbour does not reorder the unlocated ones. */
  lemma SwapKeepsUnlocated(s: seq<Country>, k: nat)
    requires k + 1 < |s| && Located(s[k + 1])
    ensures Filter(SwapNext(s, k), NotLocated) == Filter(s, NotLocated)
  {
    SwapKeepsFilter(s, k, NotLocated);
  }

  /** The located entries at distance `d` from `here`. */
  function AtDistance(here: Location, distance: Distance, d: real): Country -> bool {
    c => Located(c) && DistanceFrom(c, here, distance) == d
  }

  /**
   * A strict exchange never swaps two entries at the same distance, so it keeps the
   * order of each group of equally distant entries: the sort is stable on them.
   */
  lemma SwapKeepsTies(s: seq<Country>, k: nat, here: Location, distance: Distance)
    requires k + 1 < |s| && Before(s[k + 1], s[k], here, distance)
    ensures forall d :: Filter(SwapNext(s, k), AtDistance(here, distance, d)) ==
                        Filter(s, AtDistance(here, distance, d))
  {
    forall d ensures Filter(SwapNext(s, k), AtDistance(here, distance, d)) ==
                     Filter(s, AtDistance(here, distance, d)) {
      SwapKeepsFilter(s, k, AtDistance(here, distance, d));
    }
  }

  /** Exchanging two neighbours of which at most one is kept does not change the filter. */
  lemma SwapKeepsFilter(s: seq<Country>, k: nat, keep: Country -> bool)
    requires k + 1 < |s| && !(keep(s[k]) && keep(s[k + 1]))
    ensures Filter(SwapNext(s, k), keep) == Filter(s, keep)
  {
    assert s == s[..k] + [s[k], s[k + 1]] + s[k + 2..];
    FilterConcat(s[..k] + [s[k], s[k + 1]], s[k + 2..], keep);
    FilterConcat(s[..k], [s[k], s[k + 1]], keep);
    FilterConcat(s[..k] + [s[k + 1], s[k]], s[k + 2..], keep);
    FilterConcat(s[..k], [s[k + 1], s[k]], keep);
    assert [s[k], s[k + 1]][1..] == [s[k + 1]];
    assert [s[k + 1], s[k]][1..] == [s[k]];
  }
}
