/**
 * The movie-list routes that forward to the TMDB catalog (`get_popular_movies`,
 * `get_movies_by_category` in backend/routes.py): translating the category name
 * into a catalog path, and the post-processing of the catalog's `results`
 * list. The catalog call itself is an oracle argument; the clock is the
 * argument `today`, a `YYYY-MM-DD` string.
 */
module Category {
  import opened Wrappers
  import opened Query

  /** Python's `<` on `str`: the first differing character decides; a proper prefix is smaller. */
  predicate LexLess(a: string, b: string)
    ensures a < b ==> LexLess(a, b)
    ensures b <= a ==> !LexLess(a, b)
    ensures |a| > 0 && |b| > 0 && a[0] != b[0] ==> (LexLess(a, b) <==> a[0] < b[0])
  {
    |b| > 0 && (|a| == 0 || a[0] < b[0] || (a[0] == b[0] && LexLess(a[1..], b[1..])))
  }

  /** After a common prefix of length `k`, the first differing character decides. */
  lemma {:induction false} LexLessFirstDifference(a: string, b: string, k: nat)
    requires k < |a| && k < |b| && a[..k] == b[..k] && a[k] != b[k]
    ensures LexLess(a, b) <==> a[k] < b[k]
  {
    if k > 0 {
      assert a[0] == a[..k][0] == b[..k][0] == b[0];
      assert a[1..][..k - 1] == a[1..k] == b[1..k] == b[1..][..k - 1];
      LexLessFirstDifference(a[1..], b[1..], k - 1);
    }
  }

  lemma {:induction false} LexLessIrreflexive(a: string)
    ensures !LexLess(a, a)
  {
    if |a| > 0 {
      LexLessIrreflexive(a[1..]);
    }
  }

  lemma {:induction false} LexLessTransitive(a: string, b: string, c: string)
    requires LexLess(a, b) && LexLess(b, c)
    ensures LexLess(a, c)
  {
    if |a| > 0 && a[0] == b[0] && b[0] == c[0] {
      LexLessTransitive(a[1..], b[1..], c[1..]);
    }
  }

  /** Any two different strings are ordered one way, and never both ways. */
  lemma {:induction false} LexLessTotal(a: string, b: string)
    ensures a != b <==> LexLess(a, b) || LexLess(b, a)
    ensures !(LexLess(a, b) && LexLess(b, a))
  {
    if |a| > 0 && |b| > 0 && a[0] == b[0] {
      LexLessTotal(a[1..], b[1..]);
      if a[1..] == b[1..] {
        assert a == [a[0]] + a[1..] && b == [b[0]] + b[1..];
      }
    } else if |a| == 0 && |b| == 0 {
      assert a == b;
    }
  }

  /** The `release_date` of a catalog entry: absent, JSON `null`, or a string. */
  datatype ReleaseDate = Absent | Null | Text(text: string)

  /** A catalog entry; `id` stands for the rest of the entry, which the routes pass through. */
  datatype Entry = Entry(id: int, releaseDate: ReleaseDate)

  /** The catalog's JSON reply: `results`, when present, and the remaining keys. */
  datatype Payload = Payload(results: Option<seq<Entry>>, rest: seq<(string, string)>)

  /** The request the route sends to the catalog. */
  datatype CatalogRequest = CatalogRequest(path: string, language: string, page: int, region: Option<string>)

  /** The catalog call: None when it raises (network error, unparsable reply). */
  type Fetch = CatalogRequest -> Option<Payload>

  datatype Response = Ok(body: Payload) | Error(status: int)

  const Categories: seq<string> := ["popular", "top-rated", "upcoming", "now-playing"]

  /** `category_mapping`. */
  function CatalogCategory(category: string): (r: Option<string>)
    ensures r.None? <==> category !in Categories
    ensures r.Some? ==> '-' !in r.value && |r.value| == |category|
  {
    if category == "popular" then Some("popular")
    else if category == "top-rated" then Some("top_rated")
    else if category == "upcoming" then Some("upcoming")
    else if category == "now-playing" then Some("now_playing")
    else None
  }

  /** The translation is one-to-one, and it only replaces `-` by `_`. */
  lemma CatalogCategoryInjective(a: string, b: string)
    requires CatalogCategory(a).Some? && CatalogCategory(a) == CatalogCategory(b)
    ensures a == b
    ensures forall i :: 0 <= i < |a| ==> CatalogCategory(a).value[i] == (if a[i] == '-' then '_' else a[i])
  {
  }

  /** `request.args.get('page', 1, type=int)`: None stands for a missing or non-integer argument. */
  function Page(page: Option<int>): (r: int)
    ensures page.Some? ==> r == page.value
    ensures page.None? ==> r == 1
  {
    page.GetOr(1)
  }

  /** The catalog request of a category, or 400 for an unknown category; only `upcoming` asks for region GB. */
  function CategoryRequest(category: string, page: Option<int>): (r: Result<CatalogRequest, int>)
    ensures r.Failure? <==> category !in Categories
    ensures r.Failure? ==> r.error == 400
    ensures r.Success? ==> r.value.path == "/movie/" + CatalogCategory(category).value
    ensures r.Success? ==> r.value.language == "en-GB" && r.value.page == Page(page)
    ensures r.Success? ==> (r.value.region.Some? <==> category == "upcoming")
    ensures r.Success? && r.value.region.Some? ==> r.value.region.value == "GB"
  {
    match CatalogCategory(category)
    case None => Failure(400)
    case Some(c) =>
      Success(CatalogRequest("/movie/" + c, "en-GB", Page(page),
                             if category == "upcoming" then Some("GB") else None))
  }

  /** `results[:20]`. */
  function Take20(s: seq<Entry>): (r: seq<Entry>)
    ensures |r| == if |s| < 20 then |s| else 20
    ensures r <= s
  {
    if |s| <= 20 then s else s[..20]
  }

  /** The sort key, `x.get('release_date', '')`, for entries that got past the filter. */
  function Key(e: Entry): string {
    if e.releaseDate.Text? then e.releaseDate.text else ""
  }

  /** A `null` date makes the comparison with today raise a TypeError. */
  predicate HasNullDate(results: seq<Entry>) {
    exists i :: 0 <= i < |results| && results[i].releaseDate.Null?
  }

  /** The filter test: the date is later than today; an absent date reads as "", never later than anything. */
  predicate Upcoming(today: string, e: Entry) {
    e.releaseDate.Text? && LexLess(today, e.releaseDate.text)
  }

  /** The list comprehension: the entries dated strictly after `today`, in their order. */
  function KeepFuture(results: seq<Entry>, today: string): (r: seq<Entry>)
    ensures forall i :: 0 <= i < |r| ==> Upcoming(today, r[i])
    ensures forall i :: 0 <= i < |results| && Upcoming(today, results[i]) ==> results[i] in r
    ensures multiset(r) <= multiset(results)
    ensures forall e :: multiset(r)[e] == if Upcoming(today, e) then multiset(results)[e] else 0
    ensures Subsequence(r, results)
  {
    Filter(results, e => Upcoming(today, e))
  }

  /** Sorted by release date, ascending, as `sorted(..., key=...)` leaves it. */
  predicate SortedByDate(s: seq<Entry>) {
    forall i, j :: 0 <= i < j < |s| ==> !LexLess(Key(s[j]), Key(s[i]))
  }

  /** Put `x` after the last entry whose date is not later than its own (keeps equal dates in order). */
  function Insert(s: seq<Entry>, x: Entry): (r: seq<Entry>)
    requires SortedByDate(s)
    ensures SortedByDate(r)
    ensures multiset(r) == multiset(s) + multiset{x}
    ensures |r| == |s| + 1
  {
    if s == [] then [x]
    else
      var last := s[|s| - 1];
      if LexLess(Key(x), Key(last)) then
        var front := Insert(s[..|s| - 1], x);
        assert s == s[..|s| - 1] + [last];
        InsertSortedHelper(front, last, s, x);
        front + [last]
      else
        AppendSorted(s, x);
        s + [x]
  }

  /** An entry dated no earlier than the last one can go at the end. */
  lemma AppendSorted(s: seq<Entry>, x: Entry)
    requires |s| > 0 && SortedByDate(s) && !LexLess(Key(x), Key(s[|s| - 1]))
    ensures SortedByDate(s + [x])
  {
    var last := s[|s| - 1];
    forall i, j | 0 <= i < j < |s + [x]| ensures !LexLess(Key((s + [x])[j]), Key((s + [x])[i])) {
      if j == |s| && LexLess(Key(x), Key(s[i])) {
        LexLessTotal(Key(x), Key(last));
        if Key(s[i]) != Key(last) {
          LexLessTotal(Key(s[i]), Key(last));
          LexLessTransitive(Key(x), Key(s[i]), Key(last));
        }
      }
    }
  }

  /** Appending the old last entry behind the recursive insertion keeps the order. */
  lemma InsertSortedHelper(front: seq<Entry>, last: Entry, s: seq<Entry>, x: Entry)
    requires |s| > 0 && last == s[|s| - 1] && SortedByDate(s) && SortedByDate(front)
    requires multiset(front) == multiset(s[..|s| - 1]) + multiset{x}
    requires LexLess(Key(x), Key(last))
    ensures SortedByDate(front + [last])
  {
    forall i | 0 <= i < |front| ensures !LexLess(Key(last), Key(front[i])) {
      assert front[i] in multiset(front);
      if front[i] == x {
        LexLessTotal(Key(x), Key(last));
      } else {
        assert front[i] in multiset(s[..|s| - 1]);
        var k :| 0 <= k < |s| - 1 && s[k] == front[i];
      }
    }
  }

  /** Python's `sorted` by release date: a stable insertion sort. */
  function SortByDate(s: seq<Entry>): (r: seq<Entry>)
    ensures SortedByDate(r)
    ensures multiset(r) == multiset(s)
  {
    if s == [] then []
    else
      assert s == s[..|s| - 1] + [s[|s| - 1]];
      Insert(SortByDate(s[..|s| - 1]), s[|s| - 1])
  }

  /** The results of `upcoming`: None when a `null` date makes the comparison raise. */
  function UpcomingResults(results: seq<Entry>, today: string): (r: Option<seq<Entry>>)
    ensures r.None? <==> HasNullDate(results)
  {
    if HasNullDate(results) then None
    else Some(Take20(SortByDate(KeepFuture(results, today))))
  }

  /**
   * The upcoming list holds at most 20 entries, all dated after today, in date order;
   * it is as long as it can be: 20, or every upcoming entry when there are fewer.
   */
  lemma UpcomingResultsSpec(results: seq<Entry>, today: string)
    requires !HasNullDate(results)
    ensures var r := UpcomingResults(results, today).value;
            && |r| == (if |KeepFuture(results, today)| < 20 then |KeepFuture(results, today)| else 20)
            && (forall i :: 0 <= i < |r| ==> Upcoming(today, r[i]))
            && SortedByDate(r)
  {
    var future := KeepFuture(results, today);
    var sorted := SortByDate(future);
    var r := Take20(sorted);
    forall i | 0 <= i < |r| ensures Upcoming(today, r[i]) {
      assert r[i] == sorted[i];
      assert sorted[i] in multiset(future);
      var k :| 0 <= k < |future| && future[k] == sorted[i];
    }
  }

  /** Every upcoming entry comes from the catalog's list, and none is repeated beyond its own count there. */
  lemma UpcomingResultsFromCatalog(results: seq<Entry>, today: string)
    requires !HasNullDate(results)
    ensures multiset(UpcomingResults(results, today).value) <= multiset(results)
  {
    var future := KeepFuture(results, today);
    var sorted := SortByDate(future);
    PrefixMultiset(Take20(sorted), sorted);
    assert multiset(sorted) == multiset(future);
    assert multiset(future) <= multiset(results);
  }

  lemma PrefixMultiset(r: seq<Entry>, s: seq<Entry>)
    requires r <= s
    ensures multiset(r) <= multiset(s)
  {
    assert s == r + s[|r|..];
  }

  /** Truncation keeps the earliest: no upcoming entry it dropped is dated before one it kept. */
  lemma UpcomingResultsEarliest(results: seq<Entry>, today: string)
    requires !HasNullDate(results)
    ensures var r := UpcomingResults(results, today).value;
            var sorted := SortByDate(KeepFuture(results, today));
            forall i, j :: 0 <= i < |r| <= j < |sorted| ==> !LexLess(Key(sorted[j]), Key(r[i]))
  {
    var r := UpcomingResults(results, today).value;
    var sorted := SortByDate(KeepFuture(results, today));
    forall i, j | 0 <= i < |r| <= j < |sorted| ensures !LexLess(Key(sorted[j]), Key(r[i])) {
      assert r[i] == sorted[i];
    }
  }

  /** The payload after post-processing, or None when the processing raises. */
  function Postprocess(upcoming: bool, data: Payload, today: string): (r: Option<Payload>)
    ensures data.results.None? ==> r == Some(data)
    ensures r.Some? ==> r.value.rest == data.rest && (r.value.results.Some? <==> data.results.Some?)
    ensures !upcoming && data.results.Some? ==> r == Some(data.(results := Some(Take20(data.results.value))))
    ensures upcoming && data.results.Some? ==> (r.None? <==> HasNullDate(data.results.value))
    ensures upcoming && data.results.Some? && r.Some? ==> r.value.results == UpcomingResults(data.results.value, today)
  {
    match data.results
    case None => Some(data)
    case Some(results) =>
      if upcoming then
        match UpcomingResults(results, today)
        case None => None
        case Some(kept) => Some(data.(results := Some(kept)))
      else Some(data.(results := Some(Take20(results))))
  }

  /** `get_movies_by_category`: 400 before any catalog call, 500 when the call or the processing raises. */
  function MoviesByCategory(category: string, page: Option<int>, today: string, fetch: Fetch): (r: Response)
    ensures category !in Categories ==> r == Error(400)
    ensures r.Error? ==> r.status == 400 || r.status == 500
    ensures category in Categories && fetch(CategoryRequest(category, page).value).None? ==> r == Error(500)
    ensures r.Ok? ==> category in Categories && fetch(CategoryRequest(category, page).value).Some?
    ensures r.Ok? && category != "upcoming" ==>
              var data := fetch(CategoryRequest(category, page).value).value;
              r.body == data.(results := if data.results.Some? then Some(Take20(data.results.value)) else None)
    ensures category in Categories ==>
              var data := fetch(CategoryRequest(category, page).value);
              data.Some? ==> (r.Error? <==> category == "upcoming" && data.value.results.Some?
                                            && HasNullDate(data.value.results.value))
    ensures r.Ok? && category == "upcoming" ==>
              var data := fetch(CategoryRequest(category, page).value).value;
              && r.body.rest == data.rest
              && (data.results.None? ==> r.body.results.None?)
              && (data.results.Some? ==> r.body.results == UpcomingResults(data.results.value, today))
  {
    match CategoryRequest(category, page)
    case Failure(status) => Error(status)
    case Success(req) =>
      match fetch(req)
      case None => Error(500)
      case Some(data) =>
        match Postprocess(category == "upcoming", data, today)
        case None => Error(500)
        case Some(body) => Ok(body)
  }

  /** `get_popular_movies`: the first 20 results in catalog order, never the upcoming processing. */
  function PopularMovies(page: Option<int>, fetch: Fetch): (r: Response)
    ensures var req := CatalogRequest("/movie/popular", "en-GB", Page(page), None);
            fetch(req).None? <==> r == Error(500)
    ensures var req := CatalogRequest("/movie/popular", "en-GB", Page(page), None);
            fetch(req).Some? ==>
              && r.Ok? && r.body.rest == fetch(req).value.rest
              && (r.body.results.Some? <==> fetch(req).value.results.Some?)
              && (r.body.results.Some? ==>
                    |r.body.results.value| <= 20 && r.body.results.value <= fetch(req).value.results.value)
    ensures var req := CatalogRequest("/movie/popular", "en-GB", Page(page), None);
            fetch(req).Some? && fetch(req).value.results.Some? ==>
              r.body.results == Some(Take20(fetch(req).value.results.value))
  {
    var req := CatalogRequest("/movie/popular", "en-GB", Page(page), None);
    match fetch(req)
    case None => Error(500)
    case Some(data) => Ok(data.(results := if data.results.Some? then Some(Take20(data.results.value)) else None))
  }

  /** Outside `upcoming`, the category route and the popular route do the same for `popular`. */
  lemma PopularCategoryAgrees(page: Option<int>, today: string, fetch: Fetch)
    ensures MoviesByCategory("popular", page, today, fetch) == PopularMovies(page, fetch)
  {
    assert CategoryRequest("popular", page).value == CatalogRequest("/movie/popular", "en-GB", Page(page), None);
  }
}
