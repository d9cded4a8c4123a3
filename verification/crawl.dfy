/** `scrape_all_pages` and the entry points built on it, and
    `scrape_first_page` of the first-page scraper. The network is a
    parameter: `listing(n)` is listing page `n` as parsed, `None` when the
    request failed; `detail(url)` is the parsed detail page, `None` when the
    request or the parse failed (the scrapers catch the exception and move
    on). The pauses between requests and the progress output are left out. */
module Crawl {
  import opened Wrappers
  import opened Dates
  import opened Lists
  import opened Listings
  import opened Records

  datatype Env = Env(
    listing: int -> Option<ListingPage>,
    detail: string -> Option<DetailPage>,
    join: string -> string,
    today: Date)

  /* ---------------------------------------------------------- one listing */

  /** `current_page_ids`: the ID of every URL that has one, in order,
      repeats included. */
  function PageIds(urls: seq<string>): (r: seq<string>)
    ensures |r| <= |urls|
  {
    if |urls| == 0 then []
    else
      var init := PageIds(urls[..|urls| - 1]);
      match JobId(urls[|urls| - 1])
      case None => init
      case Some(id) => init + [id]
  }

  /** `job_id_to_url`: each ID mapped to a URL carrying it; a later URL
      with the same ID overwrites an earlier one. */
  function IdToUrl(urls: seq<string>): map<string, string> {
    if |urls| == 0 then map[]
    else
      var m := IdToUrl(urls[..|urls| - 1]);
      match JobId(urls[|urls| - 1])
      case None => m
      case Some(id) => m[id := urls[|urls| - 1]]
  }

  /** The map holds exactly the IDs of the page, each pointing to one of
      the page's URLs that carries it. */
  lemma {:induction false} IdToUrlProps(urls: seq<string>)
    ensures forall id :: id in IdToUrl(urls) <==> id in PageIds(urls)
    ensures forall id :: id in IdToUrl(urls) ==> IdToUrl(urls)[id] in urls && JobId(IdToUrl(urls)[id]) == Some(id)
  {
    if |urls| > 0 {
      var init := urls[..|urls| - 1];
      IdToUrlProps(init);
      assert urls == init + [urls[|urls| - 1]];
      assert forall u :: u in init ==> u in urls;
    }
  }

  /** The URL an ID maps to is the last URL of the page that carries it. */
  lemma {:induction false} IdToUrlLastWins(urls: seq<string>, k: int)
    requires 0 <= k < |urls| && JobId(urls[k]).Some?
    requires forall j :: k < j < |urls| ==> JobId(urls[j]) != JobId(urls[k])
    ensures JobId(urls[k]).value in IdToUrl(urls)
    ensures IdToUrl(urls)[JobId(urls[k]).value] == urls[k]
  {
    var init := urls[..|urls| - 1];
    if k < |urls| - 1 {
      assert init[k] == urls[k];
      assert forall j :: k < j < |init| ==> init[j] == urls[j];
      IdToUrlLastWins(init, k);
    }
  }

  /** `new_job_ids`: the page's IDs not seen on an earlier page, in order
      and with the page's own repeats. */
  function NewIds(ids: seq<string>, seen: set<string>): seq<string> {
    Filter(ids, id => id !in seen)
  }

  lemma NewIdsMembers(ids: seq<string>, seen: set<string>, id: string)
    ensures id in NewIds(ids, seen) <==> id in ids && id !in seen
  {
    FilterMembers(ids, id => id !in seen, id);
  }

  lemma NewIdsSnoc(ids: seq<string>, x: string, seen: set<string>)
    ensures NewIds(ids + [x], seen) == if x in seen then NewIds(ids, seen) else NewIds(ids, seen) + [x]
  {
    assert (ids + [x])[..|ids + [x]| - 1] == ids;
  }

  /** `job_id_to_url[job_id]` for each new ID. */
  function UrlsOf(ids: seq<string>, m: map<string, string>): (r: seq<string>)
    requires forall k :: 0 <= k < |ids| ==> ids[k] in m
    ensures |r| == |ids| && forall k :: 0 <= k < |ids| ==> r[k] == m[ids[k]]
  {
    seq(|ids|, k requires 0 <= k < |ids| => m[ids[k]])
  }

  /* ------------------------------------------------------------- details */

  /** The URLs whose detail request returned a page, with that page, in
      request order: `get_job_details` returns `None` for the others and
      the caller skips them. */
  function Loaded(detail: string -> Option<DetailPage>, urls: seq<string>): (r: seq<(string, DetailPage)>)
    ensures |r| <= |urls|
    ensures forall k :: 0 <= k < |r| ==> r[k].0 in urls && detail(r[k].0) == Some(r[k].1)
  {
    if |urls| == 0 then []
    else
      var init := Loaded(detail, urls[..|urls| - 1]);
      var url := urls[|urls| - 1];
      assert forall u :: u in urls[..|urls| - 1] ==> u in urls;
      match detail(url)
      case None => init
      case Some(p) => init + [(url, p)]
  }

  lemma {:induction false} LoadedAppend(detail: string -> Option<DetailPage>, a: seq<string>, b: seq<string>)
    ensures Loaded(detail, a + b) == Loaded(detail, a) + Loaded(detail, b)
    decreases |b|
  {
    if |b| == 0 {
      assert a + b == a;
    } else {
      var b' := b[..|b| - 1];
      LoadedAppend(detail, a, b');
      assert (a + b)[..|a + b| - 1] == a + b';
      assert (a + b)[|a + b| - 1] == b[|b| - 1];
    }
  }

  /** When every detail page loads, every URL is kept, in order. */
  lemma {:induction false} LoadedAll(detail: string -> Option<DetailPage>, urls: seq<string>)
    requires forall k :: 0 <= k < |urls| ==> detail(urls[k]).Some?
    ensures |Loaded(detail, urls)| == |urls|
    ensures forall k :: 0 <= k < |urls| ==> Loaded(detail, urls)[k].0 == urls[k]
  {
    if |urls| > 0 {
      var init := urls[..|urls| - 1];
      var url := urls[|urls| - 1];
      LoadedAll(detail, init);
      var l := Loaded(detail, init);
      assert detail(url).Some?;
      assert Loaded(detail, urls) == l + [(url, detail(url).value)];
      forall k | 0 <= k < |urls| ensures Loaded(detail, urls)[k].0 == urls[k] {
        if k < |init| {
          assert init[k] == urls[k];
          assert Loaded(detail, urls)[k] == l[k];
        }
      }
    }
  }

  /** A URL whose detail page loads is kept. */
  lemma {:induction false} LoadedComplete(detail: string -> Option<DetailPage>, urls: seq<string>, u: string)
    requires u in urls && detail(u).Some?
    ensures exists k :: 0 <= k < |Loaded(detail, urls)| && Loaded(detail, urls)[k].0 == u
  {
    var init := urls[..|urls| - 1];
    var url := urls[|urls| - 1];
    assert urls == init + [url];
    var l := Loaded(detail, init);
    if u == url {
      assert Loaded(detail, urls) == l + [(url, detail(url).value)];
      assert Loaded(detail, urls)[|l|].0 == u;
    } else {
      assert u in init;
      LoadedComplete(detail, init, u);
      var k :| 0 <= k < |l| && l[k].0 == u;
      assert Loaded(detail, urls)[k] == l[k];
    }
  }

  /** The pages of `l` come from `urls`, in the order of `urls`. */
  predicate InRequestOrder(urls: seq<string>, l: seq<(string, DetailPage)>) {
    && (forall k :: 0 <= k < |l| ==> l[k].0 in urls)
    && forall i, j :: 0 <= i < j < |l| ==> FirstIndex(urls, l[i].0) < FirstIndex(urls, l[j].0)
  }

  /** The kept pages are in request order. */
  lemma {:induction false} LoadedInOrder(detail: string -> Option<DetailPage>, urls: seq<string>)
    requires NoDups(urls)
    ensures InRequestOrder(urls, Loaded(detail, urls))
  {
    if |urls| > 0 {
      var init := urls[..|urls| - 1];
      var url := urls[|urls| - 1];
      assert urls == init + [url];
      assert NoDups(init);
      LoadedInOrder(detail, init);
      var l := Loaded(detail, init);
      var r := Loaded(detail, urls);
      assert url !in init by {
        assert forall k :: 0 <= k < |init| ==> init[k] == urls[k];
      }
      forall v | v in init ensures FirstIndex(urls, v) == FirstIndex(init, v) {
        FirstIndexPrefix(init, [url], v);
      }
      assert FirstIndex(urls, url) == |init| by {
        assert urls[..|init|] == init;
      }
      if detail(url).None? {
        assert r == l;
      } else {
        assert r == l + [(url, detail(url).value)];
      }
      forall i, j | 0 <= i < j < |r| ensures FirstIndex(urls, r[i].0) < FirstIndex(urls, r[j].0) {
        assert r[i] == l[i] && l[i].0 in init;
        assert FirstIndex(urls, l[i].0) == FirstIndex(init, l[i].0);
        if j < |l| {
          assert r[j] == l[j] && l[j].0 in init;
          assert FirstIndex(urls, l[j].0) == FirstIndex(init, l[j].0);
          assert InRequestOrder(init, l);
        } else {
          assert r[j].0 == url;
        }
      }
    }
  }

  predicate DistinctUrls(l: seq<(string, DetailPage)>) {
    forall i, j :: 0 <= i < j < |l| ==> l[i].0 != l[j].0
  }

  /** Distinct URLs stay distinct. */
  lemma {:induction false} LoadedDistinct(detail: string -> Option<DetailPage>, urls: seq<string>)
    requires NoDups(urls)
    ensures DistinctUrls(Loaded(detail, urls))
  {
    if |urls| > 0 {
      var init := urls[..|urls| - 1];
      var url := urls[|urls| - 1];
      assert NoDups(init);
      LoadedDistinct(detail, init);
      assert url !in init by {
        assert forall k :: 0 <= k < |init| ==> init[k] == urls[k];
      }
      var l := Loaded(detail, init);
      assert DistinctUrls(l);
      var r := Loaded(detail, urls);
      if detail(url).Some? {
        assert r == l + [(url, detail(url).value)];
        forall i, j | 0 <= i < j < |r| ensures r[i].0 != r[j].0 {
          if j < |l| {
            assert r[i] == l[i] && r[j] == l[j];
            assert l[i].0 != l[j].0;
          } else {
            assert r[i] == l[i] && r[j].0 == url;
            assert l[i].0 in init;
          }
        }
      } else {
        assert r == l;
      }
    }
  }

  /** The record `get_job_details` builds from a loaded page. */
  function Build(env: Env, twoPage: bool, loaded: (string, DetailPage)): (r: JobRecord)
    requires Valid(env.today)
    ensures r.applyUrl == loaded.0
    ensures WellFormed(r, loaded.0, env.today)
  {
    if twoPage then AssembleTwoPage(loaded.0, loaded.1, env.today, env.join)
    else AssembleFirstPage(loaded.0, loaded.1, env.today, env.join)
  }

  /** `get_job_details` for each URL, keeping the records it returned. */
  function Details(env: Env, urls: seq<string>, twoPage: bool): (r: seq<JobRecord>)
    requires Valid(env.today)
    ensures |r| == |Loaded(env.detail, urls)|
    ensures forall k :: 0 <= k < |r| ==> r[k] == Build(env, twoPage, Loaded(env.detail, urls)[k])
    ensures forall k :: 0 <= k < |r| ==> r[k].applyUrl == Loaded(env.detail, urls)[k].0
  {
    var l := Loaded(env.detail, urls);
    seq(|l|, k requires 0 <= k < |l| => Build(env, twoPage, l[k]))
  }

  /** Every record comes from one of the URLs and is well formed. */
  lemma DetailsWellFormed(env: Env, urls: seq<string>, twoPage: bool)
    requires Valid(env.today)
    ensures |Details(env, urls, twoPage)| <= |urls|
    ensures forall k :: 0 <= k < |Details(env, urls, twoPage)| ==>
      && Details(env, urls, twoPage)[k].applyUrl in urls
      && WellFormed(Details(env, urls, twoPage)[k], Details(env, urls, twoPage)[k].applyUrl, env.today)
  {
  }

  lemma DetailsAppend(env: Env, a: seq<string>, b: seq<string>, twoPage: bool)
    requires Valid(env.today)
    ensures Details(env, a + b, twoPage) == Details(env, a, twoPage) + Details(env, b, twoPage)
  {
    LoadedAppend(env.detail, a, b);
    var l, la, lb := Loaded(env.detail, a + b), Loaded(env.detail, a), Loaded(env.detail, b);
    var r, ra, rb := Details(env, a + b, twoPage), Details(env, a, twoPage), Details(env, b, twoPage);
    assert |r| == |ra| + |rb|;
    forall k | 0 <= k < |r| ensures r[k] == (ra + rb)[k] {
      if k < |ra| {
        assert l[k] == la[k];
        assert r[k] == Build(env, twoPage, la[k]) == ra[k];
      } else {
        assert l[k] == lb[k - |ra|];
        assert r[k] == Build(env, twoPage, lb[k - |ra|]) == rb[k - |ra|];
      }
    }
  }

  /** When every detail page loads, there is one record per URL, in order. */
  lemma DetailsAllLoaded(env: Env, urls: seq<string>, twoPage: bool)
    requires Valid(env.today)
    requires forall k :: 0 <= k < |urls| ==> env.detail(urls[k]).Some?
    ensures |Details(env, urls, twoPage)| == |urls|
    ensures forall k :: 0 <= k < |urls| ==> Details(env, urls, twoPage)[k].applyUrl == urls[k]
  {
    LoadedAll(env.detail, urls);
  }

  /** Distinct URLs give records with distinct apply URLs. */
  lemma DetailsDistinct(env: Env, urls: seq<string>, twoPage: bool)
    requires Valid(env.today)
    requires NoDups(urls)
    ensures var r := Details(env, urls, twoPage);
      forall i, j :: 0 <= i < j < |r| ==> r[i].applyUrl != r[j].applyUrl
  {
    LoadedDistinct(env.detail, urls);
  }

  /* ---------------------------------------------------------------- crawl */

  /** One page's worth of work: the page number, its new IDs and the URLs
      fetched for them. */
  datatype Batch = Batch(page: int, ids: seq<string>, urls: seq<string>)

  /** Why the loop ended. */
  datatype Stop = PastLimit | FetchFailed | NoNewJobs | ReachedLimit | NoMorePages

  /** The listing pages requested and the batches taken from them. */
  datatype Crawl = Crawl(requested: seq<int>, batches: seq<Batch>, stop: Stop)

  function SetOf(xs: seq<string>): set<string> {
    set k | 0 <= k < |xs| :: xs[k]
  }

  /** The body of the loop for one listing page up to the detail
      requests: the page's IDs, the new ones among them, and the URL that
      `job_id_to_url` gives for each. */
  function TakeBatch(urls: seq<string>, page: int, seen: set<string>): (b: Batch)
    ensures b.page == page && b.ids == NewIds(PageIds(urls), seen)
    ensures |b.urls| == |b.ids|
    ensures forall k :: 0 <= k < |b.ids| ==> b.urls[k] in urls && JobId(b.urls[k]) == Some(b.ids[k])
  {
    var ids := NewIds(PageIds(urls), seen);
    var m := IdToUrl(urls);
    IdToUrlProps(urls);
    assert forall k :: 0 <= k < |ids| ==> ids[k] in m by {
      forall k | 0 <= k < |ids| ensures ids[k] in m {
        NewIdsMembers(PageIds(urls), seen, ids[k]);
      }
    }
    Batch(page, ids, UrlsOf(ids, m))
  }

  /** The loop from `page` on requests consecutive pages, never past the
      ceiling, and takes at most one batch per page, numbered by page. */
  predicate Numbered(r: Crawl, page: int, maxPages: int) {
    && (forall k :: 0 <= k < |r.requested| ==> r.requested[k] == page + k <= maxPages)
    && |r.batches| <= |r.requested|
    && (forall k :: 0 <= k < |r.batches| ==> r.batches[k].page == page + k)
  }

  /** One more turn of the loop in front of the turns that follow it. */
  function Prepend(page: int, maxPages: int, b: Batch, rest: Crawl): (r: Crawl)
    requires page <= maxPages && b.page == page
    requires Numbered(rest, page + 1, maxPages)
    ensures Numbered(r, page, maxPages)
  {
    var r := Crawl([page] + rest.requested, [b] + rest.batches, rest.stop);
    NumberedCons(page, maxPages, b, rest, r);
    r
  }

  lemma NumberedCons(page: int, maxPages: int, b: Batch, rest: Crawl, r: Crawl)
    requires page <= maxPages && b.page == page
    requires Numbered(rest, page + 1, maxPages)
    requires r.requested == [page] + rest.requested && r.batches == [b] + rest.batches
    ensures Numbered(r, page, maxPages)
  {
    forall k | 0 <= k < |r.requested| ensures r.requested[k] == page + k <= maxPages {
      if k > 0 {
        assert r.requested[k] == rest.requested[k - 1];
      }
    }
    forall k | 0 <= k < |r.batches| ensures r.batches[k].page == page + k {
      if k > 0 {
        assert r.batches[k] == rest.batches[k - 1];
      }
    }
  }

  /** The `while page <= max_pages` loop of `scrape_all_pages`, from
      `page` on, with `seen` the IDs already taken. */
  function CrawlFrom(env: Env, maxPages: int, page: int, seen: set<string>): (r: Crawl)
    requires Valid(env.today)
    ensures Numbered(r, page, maxPages)
    decreases maxPages - page
  {
    if page > maxPages then Crawl([], [], PastLimit)
    else match env.listing(page)
      case None => Crawl([page], [], FetchFailed)
      case Some(lp) =>
        var b := TakeBatch(Dedup(CandidateUrls(lp, env.join)), page, seen);
        if b.ids == [] && page > 1 then Crawl([page], [], NoNewJobs)
        else if page >= maxPages then Crawl([page], [b], ReachedLimit)
        else if !lp.hasMore then Crawl([page], [b], NoMorePages)
        else
          Prepend(page, maxPages, b, CrawlFrom(env, maxPages, page + 1, seen + SetOf(b.ids)))
  }

  /** The URLs fetched over all batches, in order. */
  function FetchedUrls(batches: seq<Batch>): seq<string> {
    if |batches| == 0 then [] else batches[0].urls + FetchedUrls(batches[1..])
  }

  /** `scrape_all_pages(max_pages)`: the records of every fetched URL whose
      detail page loaded, page by page and in fetch order. The loop
      interleaves listing and detail requests; since both are functions of
      the URL here, the records are the same when gathered afterwards. */
  function ScrapeAllPages(env: Env, maxPages: int): (jobs: seq<JobRecord>)
    requires Valid(env.today)
    ensures |jobs| <= |FetchedUrls(CrawlFrom(env, maxPages, 1, {}).batches)|
    ensures forall k :: 0 <= k < |jobs| ==>
      && jobs[k].applyUrl in FetchedUrls(CrawlFrom(env, maxPages, 1, {}).batches)
      && WellFormed(jobs[k], jobs[k].applyUrl, env.today)
  {
    var urls := FetchedUrls(CrawlFrom(env, maxPages, 1, {}).batches);
    DetailsWellFormed(env, urls, true);
    Details(env, urls, true)
  }

  /** No batch takes an ID of `seen`. */
  predicate AllUnseen(bs: seq<Batch>, seen: set<string>) {
    forall i, id :: 0 <= i < |bs| && id in bs[i].ids ==> id !in seen
  }

  /** No ID is taken by two different batches. */
  predicate PagesDisjoint(bs: seq<Batch>) {
    forall i, j, id :: 0 <= i < j < |bs| && id in bs[j].ids ==> id !in bs[i].ids
  }

  /** The crawl takes its first batch from the first listing page, and
      any further batches from the crawl of the next page with that
      batch's IDs added to those seen. */
  lemma CrawlShape(env: Env, maxPages: int, page: int, seen: set<string>)
    requires Valid(env.today)
    ensures var r := CrawlFrom(env, maxPages, page, seen);
      |r.batches| > 0 ==>
        && page <= maxPages && env.listing(page).Some?
        && r.batches[0] == TakeBatch(Dedup(CandidateUrls(env.listing(page).value, env.join)), page, seen)
        && (|r.batches| > 1 ==>
              r.batches[1..] == CrawlFrom(env, maxPages, page + 1, seen + SetOf(r.batches[0].ids)).batches)
  {
    var r := CrawlFrom(env, maxPages, page, seen);
    if page <= maxPages && env.listing(page).Some? {
      var lp := env.listing(page).value;
      var b := TakeBatch(Dedup(CandidateUrls(lp, env.join)), page, seen);
      var rest := CrawlFrom(env, maxPages, page + 1, seen + SetOf(b.ids));
      if b.ids == [] && page > 1 {
        assert r.batches == [];
      } else if page >= maxPages || !lp.hasMore {
        assert r.batches == [b];
      } else {
        assert r.batches == [b] + rest.batches;
      }
    }
  }

  /** Every batch's IDs were unseen when it was taken, and no ID is taken
      on two pages: a job listed on several pages is fetched for the first
      of them only. */
  lemma {:induction false} CrawlNeverRefetches(env: Env, maxPages: int, page: int, seen: set<string>)
    requires Valid(env.today)
    ensures AllUnseen(CrawlFrom(env, maxPages, page, seen).batches, seen)
    ensures PagesDisjoint(CrawlFrom(env, maxPages, page, seen).batches)
    decreases maxPages - page
  {
    var bs := CrawlFrom(env, maxPages, page, seen).batches;
    CrawlShape(env, maxPages, page, seen);
    if |bs| > 0 {
      var lp := env.listing(page).value;
      var urls := Dedup(CandidateUrls(lp, env.join));
      var b := bs[0];
      forall id | id in b.ids ensures id !in seen {
        NewIdsMembers(PageIds(urls), seen, id);
      }
      var seen' := seen + SetOf(b.ids);
      if |bs| > 1 {
        CrawlNeverRefetches(env, maxPages, page + 1, seen');
      }
      ConsBatch(b, bs[1..], seen);
      assert bs == [b] + bs[1..];
    }
  }

  /** A batch of unseen IDs in front of batches that avoid them keeps the
      batches unseen and disjoint. */
  lemma ConsBatch(b: Batch, rest: seq<Batch>, seen: set<string>)
    requires forall id :: id in b.ids ==> id !in seen
    requires AllUnseen(rest, seen + SetOf(b.ids)) && PagesDisjoint(rest)
    ensures AllUnseen([b] + rest, seen) && PagesDisjoint([b] + rest)
  {
    var bs := [b] + rest;
    var seen' := seen + SetOf(b.ids);
    forall id | id in b.ids ensures id in seen' {
      var k :| 0 <= k < |b.ids| && b.ids[k] == id;
    }
    forall i, id | 0 <= i < |bs| && id in bs[i].ids ensures id !in seen {
      if i > 0 {
        assert bs[i] == rest[i - 1];
      }
    }
    forall i, j, id | 0 <= i < j < |bs| && id in bs[j].ids ensures id !in bs[i].ids {
      assert bs[j] == rest[j - 1];
      if i > 0 {
        assert bs[i] == rest[i - 1];
      }
    }
  }

  /** Each fetched URL carries the ID it was fetched for. */
  predicate CarryIds(bs: seq<Batch>) {
    forall i :: 0 <= i < |bs| ==>
      |bs[i].urls| == |bs[i].ids| &&
      forall k :: 0 <= k < |bs[i].ids| ==> JobId(bs[i].urls[k]) == Some(bs[i].ids[k])
  }

  lemma {:induction false} BatchUrlsCarryIds(env: Env, maxPages: int, page: int, seen: set<string>)
    requires Valid(env.today)
    ensures CarryIds(CrawlFrom(env, maxPages, page, seen).batches)
    decreases maxPages - page
  {
    var bs := CrawlFrom(env, maxPages, page, seen).batches;
    CrawlShape(env, maxPages, page, seen);
    if |bs| > 0 {
      var rest := bs[1..];
      if |bs| > 1 {
        BatchUrlsCarryIds(env, maxPages, page + 1, seen + SetOf(bs[0].ids));
      }
      assert CarryIds(rest);
      forall i | 0 <= i < |bs| ensures |bs[i].urls| == |bs[i].ids| &&
        forall k :: 0 <= k < |bs[i].ids| ==> JobId(bs[i].urls[k]) == Some(bs[i].ids[k])
      {
        if i > 0 {
          assert bs[i] == rest[i - 1];
        }
      }
    }
  }

  /** The IDs the batches took: what `all_job_ids` has gained. */
  function Taken(bs: seq<Batch>): set<string> {
    if |bs| == 0 then {} else SetOf(bs[0].ids) + Taken(bs[1..])
  }

  /** Taking one batch in front moves its IDs into the seen set. */
  lemma TakenShift(seen: set<string>, b: Batch, bs: seq<Batch>, n: int)
    requires 0 <= n - 1 <= |bs|
    ensures seen + Taken(([b] + bs)[..n]) == (seen + SetOf(b.ids)) + Taken(bs[..n - 1])
  {
    var pre := ([b] + bs)[..n];
    assert pre[0] == b && pre[1..] == bs[..n - 1];
  }

  /** The last listing page the loop requested. */
  function LastRequested(r: Crawl): int
    requires |r.requested| > 0
  {
    r.requested[|r.requested| - 1]
  }

  /** The four ways the loop ends, read off the last page it requested:
      that page failed to load; it was past page 1 and had no ID that the
      batches before it had not taken; it was the page ceiling; or its
      continuation hint was false. A loop that starts within the ceiling
      always requests a page. */
  lemma {:induction false} CrawlStopRules(env: Env, maxPages: int, page: int, seen: set<string>)
    requires Valid(env.today)
    requires page <= maxPages
    ensures |CrawlFrom(env, maxPages, page, seen).requested| > 0
    ensures CrawlFrom(env, maxPages, page, seen).stop != PastLimit
    ensures var r := CrawlFrom(env, maxPages, page, seen);
      r.stop == FetchFailed <==> env.listing(LastRequested(r)).None?
    ensures var r := CrawlFrom(env, maxPages, page, seen);
      r.stop == NoNewJobs ==>
        && LastRequested(r) > 1 && env.listing(LastRequested(r)).Some?
        && |r.requested| - 1 <= |r.batches|
        && NextSeen(env, LastRequested(r), seen + Taken(r.batches[..|r.requested| - 1])) == []
    ensures var r := CrawlFrom(env, maxPages, page, seen);
      r.stop == ReachedLimit ==> LastRequested(r) == maxPages && env.listing(LastRequested(r)).Some?
    ensures var r := CrawlFrom(env, maxPages, page, seen);
      r.stop == NoMorePages ==>
        LastRequested(r) < maxPages && env.listing(LastRequested(r)).Some? && !env.listing(LastRequested(r)).value.hasMore
    decreases maxPages - page
  {
    var r := CrawlFrom(env, maxPages, page, seen);
    CrawlStep(env, maxPages, page, seen);
    NoNewJobsRule(env, maxPages, page, seen);
    if Continues(env, maxPages, page, seen) {
      var seen' := seen + SetOf(NextSeen(env, page, seen));
      CrawlStopRules(env, maxPages, page + 1, seen');
      var rest := CrawlFrom(env, maxPages, page + 1, seen');
      assert LastRequested(r) == LastRequested(rest);
    }
  }

  /** The no-new-jobs stop, both ways: the loop ends for it exactly when
      its last page is past page 1, loaded, and lists no ID that the
      batches before it had not already taken. */
  lemma {:induction false} NoNewJobsRule(env: Env, maxPages: int, page: int, seen: set<string>)
    requires Valid(env.today)
    requires page <= maxPages
    ensures var r := CrawlFrom(env, maxPages, page, seen);
      |r.requested| > 0 && |r.requested| - 1 <= |r.batches|
    ensures var r := CrawlFrom(env, maxPages, page, seen);
      var before := seen + Taken(r.batches[..|r.requested| - 1]);
      r.stop == NoNewJobs <==>
        && LastRequested(r) > 1 && env.listing(LastRequested(r)).Some?
        && NextSeen(env, LastRequested(r), before) == []
    decreases maxPages - page
  {
    var r := CrawlFrom(env, maxPages, page, seen);
    CrawlStep(env, maxPages, page, seen);
    if Continues(env, maxPages, page, seen) {
      var seen' := seen + SetOf(NextSeen(env, page, seen));
      NoNewJobsRule(env, maxPages, page + 1, seen');
      var rest := CrawlFrom(env, maxPages, page + 1, seen');
      assert LastRequested(r) == LastRequested(rest);
      TakenShift(seen, r.batches[0], rest.batches, |rest.requested|);
    } else {
      assert LastRequested(r) == page;
      assert r.batches[..|r.requested| - 1] == [];
      assert seen + Taken([]) == seen;
    }
  }

  /** The loop goes on past `page`: the page loaded, it is page 1 or had
      new IDs, it is below the ceiling, and its hint says there are more. */
  predicate Continues(env: Env, maxPages: int, page: int, seen: set<string>) {
    && env.listing(page).Some?
    && !(NextSeen(env, page, seen) == [] && page > 1)
    && page < maxPages
    && env.listing(page).value.hasMore
  }

  /** The new IDs of a loaded page. */
  function NextSeen(env: Env, page: int, seen: set<string>): seq<string>
    requires env.listing(page).Some?
  {
    TakeBatch(Dedup(CandidateUrls(env.listing(page).value, env.join)), page, seen).ids
  }

  /** One turn of the loop, within the ceiling: either it stops at this
      page, for the reason the page gives, or it requests this page and
      goes on to the next. */
  lemma CrawlStep(env: Env, maxPages: int, page: int, seen: set<string>)
    requires Valid(env.today)
    requires page <= maxPages
    ensures var r := CrawlFrom(env, maxPages, page, seen);
      !Continues(env, maxPages, page, seen) ==>
        && r.requested == [page]
        && (r.stop == FetchFailed <==> env.listing(page).None?)
        && (r.stop == NoNewJobs <==> page > 1 && env.listing(page).Some? && NextSeen(env, page, seen) == [])
        && (r.stop == NoNewJobs ==> r.batches == [])
        && (r.stop == ReachedLimit ==> page == maxPages && env.listing(page).Some?)
        && (r.stop == NoMorePages ==> page < maxPages && env.listing(page).Some? && !env.listing(page).value.hasMore)
        && r.stop != PastLimit
    ensures var r := CrawlFrom(env, maxPages, page, seen);
      Continues(env, maxPages, page, seen) ==>
        var rest := CrawlFrom(env, maxPages, page + 1, seen + SetOf(NextSeen(env, page, seen)));
        && r.requested == [page] + rest.requested && r.stop == rest.stop
        && r.batches == [TakeBatch(Dedup(CandidateUrls(env.listing(page).value, env.join)), page, seen)] + rest.batches
  {
  }

  /** A first listing page with no job IDs does not end the crawl: the
      empty-page stop applies from page 2 on. */
  lemma EmptyFirstPageContinues(env: Env, maxPages: int)
    requires Valid(env.today)
    requires maxPages >= 2
    requires env.listing(1).Some? && env.listing(1).value.hasMore
    requires PageIds(Dedup(CandidateUrls(env.listing(1).value, env.join))) == []
    ensures var r := CrawlFrom(env, maxPages, 1, {});
      |r.requested| >= 2 && r.requested[1] == 2 && r.batches[0] == Batch(1, [], [])
  {
    var urls := Dedup(CandidateUrls(env.listing(1).value, env.join));
    var b := TakeBatch(urls, 1, {});
    assert b.ids == [];
    assert b == Batch(1, [], []);
    var rest := CrawlFrom(env, maxPages, 2, {} + SetOf(b.ids));
    assert |rest.requested| >= 1 && rest.requested[0] == 2;
    assert CrawlFrom(env, maxPages, 1, {}).requested == [1] + rest.requested;
  }

  /** A job listed under two URLs on one page (a tracking suffix, say) is
      fetched twice, both times from the later URL, and stored twice. */
  lemma DoubleFetch(env: Env, u1: string, u2: string, id: string)
    requires Valid(env.today)
    requires env.listing(1).Some?
    requires Dedup(CandidateUrls(env.listing(1).value, env.join)) == [u1, u2]
    requires JobId(u1) == Some(id) && JobId(u2) == Some(id)
    requires env.detail(u2).Some?
    ensures CrawlFrom(env, 1, 1, {}).batches == [Batch(1, [id, id], [u2, u2])]
    ensures var jobs := ScrapeAllPages(env, 1);
      |jobs| == 2 && jobs[0] == jobs[1] && jobs[0].applyUrl == u2
  {
    var b := Batch(1, [id, id], [u2, u2]);
    SameIdBatch(u1, u2, id);
    assert CrawlFrom(env, 1, 1, {}).batches == [b];
    assert FetchedUrls([b]) == [u2, u2] by {
      assert [b][1..] == [];
      assert [u2, u2] + [] == [u2, u2];
    }
    TwiceLoaded(env, u2);
  }

  /** The batch of a page listing two URLs with one ID. */
  lemma SameIdBatch(u1: string, u2: string, id: string)
    requires JobId(u1) == Some(id) && JobId(u2) == Some(id)
    ensures TakeBatch([u1, u2], 1, {}) == Batch(1, [id, id], [u2, u2])
  {
    SameIdPage(u1, u2, id);
    assert NewIds([id, id], {}) == [id, id] by {
      NewIdsSnoc([], id, {});
      NewIdsSnoc([id], id, {});
      assert [id] == [] + [id];
      assert [id, id] == [id] + [id];
    }
    var b := TakeBatch([u1, u2], 1, {});
    assert b.ids == [id, id];
    assert b.urls == UrlsOf([id, id], map[id := u2]);
  }

  lemma SameIdPage(u1: string, u2: string, id: string)
    requires JobId(u1) == Some(id) && JobId(u2) == Some(id)
    ensures PageIds([u1, u2]) == [id, id]
    ensures IdToUrl([u1, u2]) == map[id := u2]
  {
    OneUrl(u1, id);
    assert [u1, u2][..1] == [u1];
  }

  lemma OneUrl(u: string, id: string)
    requires JobId(u) == Some(id)
    ensures PageIds([u]) == [id]
    ensures IdToUrl([u]) == map[id := u]
  {
    assert [u][..0] == [];
  }

  /** A URL fetched twice yields the same record twice. */
  lemma TwiceLoaded(env: Env, u: string)
    requires Valid(env.today)
    requires env.detail(u).Some?
    ensures var jobs := Details(env, [u, u], true);
      |jobs| == 2 && jobs[0] == jobs[1] && jobs[0].applyUrl == u
  {
    LoadedAll(env.detail, [u, u]);
    var l := Loaded(env.detail, [u, u]);
    assert l[0] == l[1];
  }

  /* ---------------------------------------------------------------- modes */

  /** `scrape_first_page_only`, `scrape_two_pages` and `initial_scrape` all
      call `scrape_all_pages(max_pages=1)`: whatever their names promise,
      each requests listing page 1 only and takes at most one batch. */
  lemma SinglePageModes(env: Env)
    requires Valid(env.today)
    ensures var r := CrawlFrom(env, 1, 1, {});
      && r.requested == [1]
      && |r.batches| <= 1
      && (r.stop == FetchFailed || r.stop == ReachedLimit)
      && (r.stop == FetchFailed <==> env.listing(1).None?)
  {
  }

  /** A crawl never requests a page past the limit, and requests the pages
      in order from 1 without gaps. */
  lemma CrawlPages(env: Env, maxPages: int)
    requires Valid(env.today)
    ensures var r := CrawlFrom(env, maxPages, 1, {});
      && |r.requested| <= (if maxPages < 0 then 0 else maxPages)
      && forall k :: 0 <= k < |r.requested| ==> r.requested[k] == k + 1
  {
    var r := CrawlFrom(env, maxPages, 1, {});
    if |r.requested| > 0 {
      assert r.requested[|r.requested| - 1] == |r.requested| <= maxPages;
    }
  }

  /* ------------------------------------------------- first-page scraper */

  /** `scrape_first_page`: listing page 1 parsed by the first-page parser,
      then one detail request per listed URL; `[]` when the listing
      request fails. */
  function ScrapeFirstPage(env: Env): (r: seq<JobRecord>)
    requires Valid(env.today)
    ensures env.listing(1).None? ==> r == []
    ensures forall k :: 0 <= k < |r| ==> WellFormed(r[k], r[k].applyUrl, env.today)
  {
    match env.listing(1)
    case None => []
    case Some(lp) =>
      var urls := Dedup(Map(Filter(lp.linkHrefs, NonEmpty), env.join));
      DetailsWellFormed(env, urls, false);
      Details(env, urls, false)
  }

  /** Unlike the crawl, the first-page scraper never stores one URL twice:
      its records have distinct apply URLs, each from the listing page. */
  lemma FirstPageDistinctUrls(env: Env)
    requires Valid(env.today)
    requires env.listing(1).Some?
    ensures var r := ScrapeFirstPage(env);
      var listed := Map(Filter(env.listing(1).value.linkHrefs, NonEmpty), env.join);
      && (forall i, j :: 0 <= i < j < |r| ==> r[i].applyUrl != r[j].applyUrl)
      && (forall k :: 0 <= k < |r| ==> r[k].applyUrl in listed)
  {
    var listed := Map(Filter(env.listing(1).value.linkHrefs, NonEmpty), env.join);
    DedupProps(listed);
    DetailsDistinct(env, Dedup(listed), false);
  }

  /** `scrape_first_page` makes one detail request per listed URL, in
      listing order: every listed URL whose page loads gives a record, the
      records follow the listing, and when every page loads there is
      exactly one record per listed URL. */
  lemma FirstPageOnePerUrl(env: Env)
    requires Valid(env.today)
    requires env.listing(1).Some?
    ensures var r := ScrapeFirstPage(env);
      var urls := Dedup(Map(Filter(env.listing(1).value.linkHrefs, NonEmpty), env.join));
      && (forall u :: u in urls && env.detail(u).Some? ==> exists k :: 0 <= k < |r| && r[k].applyUrl == u)
      && (forall k :: 0 <= k < |r| ==> r[k].applyUrl in urls)
      && (forall i, j :: 0 <= i < j < |r| ==> FirstIndex(urls, r[i].applyUrl) < FirstIndex(urls, r[j].applyUrl))
      && ((forall k :: 0 <= k < |urls| ==> env.detail(urls[k]).Some?) ==>
            |r| == |urls| && forall k :: 0 <= k < |urls| ==> r[k].applyUrl == urls[k])
  {
    var urls := Dedup(Map(Filter(env.listing(1).value.linkHrefs, NonEmpty), env.join));
    DedupProps(Map(Filter(env.listing(1).value.linkHrefs, NonEmpty), env.join));
    assert ScrapeFirstPage(env) == Details(env, urls, false);
    DetailsInOrder(env, urls, false);
    if forall k :: 0 <= k < |urls| ==> env.detail(urls[k]).Some? {
      DetailsAllLoaded(env, urls, false);
    }
  }

  /** Over distinct URLs, the records are complete and in request order:
      every URL whose page loads gives a record, and the records follow
      the URLs. */
  lemma DetailsInOrder(env: Env, urls: seq<string>, twoPage: bool)
    requires Valid(env.today)
    requires NoDups(urls)
    ensures var r := Details(env, urls, twoPage);
      && (forall u :: u in urls && env.detail(u).Some? ==> exists k :: 0 <= k < |r| && r[k].applyUrl == u)
      && (forall k :: 0 <= k < |r| ==> r[k].applyUrl in urls)
      && (forall i, j :: 0 <= i < j < |r| ==> FirstIndex(urls, r[i].applyUrl) < FirstIndex(urls, r[j].applyUrl))
  {
    var r := Details(env, urls, twoPage);
    var l := Loaded(env.detail, urls);
    LoadedInOrder(env.detail, urls);
    forall u | u in urls && env.detail(u).Some? ensures exists k :: 0 <= k < |r| && r[k].applyUrl == u {
      LoadedComplete(env.detail, urls, u);
      var k :| 0 <= k < |l| && l[k].0 == u;
      assert r[k].applyUrl == u;
    }
    forall k | 0 <= k < |r| ensures r[k].applyUrl in urls {
      assert r[k].applyUrl == l[k].0;
    }
    forall i, j | 0 <= i < j < |r|
      ensures FirstIndex(urls, r[i].applyUrl) < FirstIndex(urls, r[j].applyUrl)
    {
      assert r[i].applyUrl == l[i].0 && r[j].applyUrl == l[j].0;
    }
  }
}
