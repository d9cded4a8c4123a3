/** `parse_job_listings_from_page` and the job ID read from a job URL. A
    listing page is given by the hrefs the HTML parser found on it: the
    anchors whose href matches `/puesto/\d+`, in document order, and, for
    each job card that holds one, the href of its first anchor containing
    `/puesto/`. */
module Listings {
  import opened Wrappers
  import opened Text
  import opened Lists

  datatype ListingPage = ListingPage(linkHrefs: seq<string>, cardHrefs: seq<string>, hasMore: bool)

  predicate NonEmpty(href: string) {
    href != ""
  }

  /** Every URL the two passes of the two-page parser look at, in order. */
  function CandidateUrls(page: ListingPage, join: string -> string): seq<string> {
    Map(Filter(page.linkHrefs, NonEmpty), join) + Map(page.cardHrefs, join)
  }

  /** `parse_job_listings_from_page` of the two-page scraper: the job links,
      then the job cards, each URL appended when not yet listed, then a
      final pass that drops repeats (there are none left by then). */
  method ParseListingTwoPage(page: ListingPage, join: string -> string) returns (urls: seq<string>)
    ensures urls == Dedup(CandidateUrls(page, join))
  {
    var jobUrls := ParseListingFirstPage(page.linkHrefs, join);
    jobUrls := AppendNewUrls(jobUrls, Map(Filter(page.linkHrefs, NonEmpty), join), page.cardHrefs, join);
    urls := UniqueUrls(jobUrls);
    DedupIdempotent(CandidateUrls(page, join));
  }

  /** The job-card loop: each resolved card href is appended when new. */
  method AppendNewUrls(jobUrls: seq<string>, before: seq<string>, cards: seq<string>, join: string -> string)
    returns (out: seq<string>)
    requires jobUrls == Dedup(before)
    ensures out == Dedup(before + Map(cards, join))
  {
    out := jobUrls;
    var j := 0;
    assert before + Map(cards[..0], join) == before;
    while j < |cards|
      invariant 0 <= j <= |cards|
      invariant out == Dedup(before + Map(cards[..j], join))
    {
      var url := join(cards[j]);
      assert cards[..j + 1] == cards[..j] + [cards[j]];
      MapSnoc(cards[..j], cards[j], join);
      assert before + Map(cards[..j + 1], join) == (before + Map(cards[..j], join)) + [url];
      DedupSnoc(before + Map(cards[..j], join), url);
      if url !in out {
        out := out + [url];
      }
      j := j + 1;
    }
    assert cards[..|cards|] == cards;
  }

  /** The closing pass with a `seen` set: it keeps first occurrences. */
  method UniqueUrls(xs: seq<string>) returns (unique: seq<string>)
    ensures unique == Dedup(xs)
  {
    unique := [];
    var seen: set<string> := {};
    var k := 0;
    while k < |xs|
      invariant 0 <= k <= |xs|
      invariant unique == Dedup(xs[..k])
      invariant forall u :: u in seen <==> u in unique
    {
      var url := xs[k];
      assert xs[..k + 1] == xs[..k] + [url];
      DedupSnoc(xs[..k], url);
      assert url in seen <==> url in unique;
      if url !in seen {
        unique := unique + [url];
        seen := seen + {url};
      }
      k := k + 1;
    }
    assert xs[..|xs|] == xs;
  }

  /** `parse_job_listings_from_page` of the first-page scraper: job links
      only, one pass. */
  method ParseListingFirstPage(linkHrefs: seq<string>, join: string -> string) returns (urls: seq<string>)
    ensures urls == Dedup(Map(Filter(linkHrefs, NonEmpty), join))
  {
    urls := [];
    var i := 0;
    while i < |linkHrefs|
      invariant 0 <= i <= |linkHrefs|
      invariant urls == Dedup(Map(Filter(linkHrefs[..i], NonEmpty), join))
    {
      var href := linkHrefs[i];
      assert linkHrefs[..i + 1] == linkHrefs[..i] + [href];
      FilterSnoc(linkHrefs[..i], href, NonEmpty);
      if href != "" {
        var url := join(href);
        MapSnoc(Filter(linkHrefs[..i], NonEmpty), href, join);
        DedupSnoc(Map(Filter(linkHrefs[..i], NonEmpty), join), url);
        if url !in urls {
          urls := urls + [url];
        }
      }
      i := i + 1;
    }
    assert linkHrefs[..|linkHrefs|] == linkHrefs;
  }

  /** The listing URLs: no repeats; exactly the resolved hrefs; in the order
      in which each first appears. */
  lemma ListingUrls(page: ListingPage, join: string -> string)
    ensures var urls := Dedup(CandidateUrls(page, join));
      && NoDups(urls)
      && (forall k :: 0 <= k < |urls| ==> urls[k] in CandidateUrls(page, join))
      && (forall k :: 0 <= k < |CandidateUrls(page, join)| ==> CandidateUrls(page, join)[k] in urls)
      && (forall i, j :: 0 <= i < j < |urls| ==>
            FirstIndex(CandidateUrls(page, join), urls[i]) < FirstIndex(CandidateUrls(page, join), urls[j]))
  {
    DedupProps(CandidateUrls(page, join));
    DedupOrder(CandidateUrls(page, join));
  }

  /** On a page without job cards, both scrapers list the same URLs. */
  lemma ListingVersionsAgree(page: ListingPage, join: string -> string)
    requires page.cardHrefs == []
    ensures Dedup(CandidateUrls(page, join)) == Dedup(Map(Filter(page.linkHrefs, NonEmpty), join))
  {
    assert Map(page.cardHrefs, join) == [];
    assert CandidateUrls(page, join) == Map(Filter(page.linkHrefs, NonEmpty), join);
  }

  /* ------------------------------------------------------------------ job ID */

  const Puesto: string := "/puesto/"

  /** `re.search(r'/puesto/(\d+)', s)` can match at `i`: the path segment
      followed by at least one digit. */
  predicate PuestoAt(s: string, i: int) {
    OccursAt(s, Puesto, i) && i + |Puesto| < |s| && IsDigit(s[i + |Puesto|])
  }

  /** The leftmost match at or after `from`. */
  function SearchFrom(s: string, from: nat): (r: Option<nat>)
    ensures r.Some? ==> from <= r.value && PuestoAt(s, r.value)
    ensures r.Some? ==> forall i :: from <= i < r.value ==> !PuestoAt(s, i)
    ensures r.None? ==> forall i :: from <= i ==> !PuestoAt(s, i)
    decreases |s| - from
  {
    if from + |Puesto| >= |s| then None
    else if PuestoAt(s, from) then Some(from)
    else SearchFrom(s, from + 1)
  }

  /** `match.group(1)` of that search: the whole run of digits after the
      leftmost `/puesto/` that a digit follows; `None` when there is none. */
  function JobId(s: string): (r: Option<string>)
    ensures r.None? <==> forall i :: !PuestoAt(s, i)
    ensures r.Some? ==> exists i ::
      && PuestoAt(s, i)
      && (forall j :: 0 <= j < i ==> !PuestoAt(s, j))
      && r.value == LeadingDigits(s[i + |Puesto|..])
    ensures r.Some? ==> AllDigits(r.value) && r.value != []
  {
    match SearchFrom(s, 0)
    case None => None
    case Some(i) =>
      var id := LeadingDigits(s[i + |Puesto|..]);
      assert s[i + |Puesto|..][0] == s[i + |Puesto|];
      Some(id)
  }

  /** A URL whose first `/puesto/` is followed by digits `d` and then by
      something other than a digit yields `d`. */
  lemma JobIdOf(pre: string, d: string, rest: string)
    requires AllDigits(d) && d != []
    requires rest == [] || !IsDigit(rest[0])
    requires forall j :: 0 <= j < |pre| ==> !PuestoAt(pre + Puesto + d + rest, j)
    ensures JobId(pre + Puesto + d + rest) == Some(d)
  {
    var s := pre + Puesto + d + rest;
    var i := |pre|;
    assert s[i..i + |Puesto|] == Puesto;
    assert s[i + |Puesto|] == d[0];
    assert PuestoAt(s, i);
    var tail := s[i + |Puesto|..];
    assert tail == d + rest;
    LeadingDigitsOf(d, rest);
    var r := JobId(s);
    var i' :| PuestoAt(s, i') && (forall j :: 0 <= j < i' ==> !PuestoAt(s, j)) && r.value == LeadingDigits(s[i' + |Puesto|..]);
    assert i' == i;
  }

  lemma {:induction false} LeadingDigitsOf(d: string, rest: string)
    requires AllDigits(d)
    requires rest == [] || !IsDigit(rest[0])
    ensures LeadingDigits(d + rest) == d
    decreases |d|
  {
    if |d| == 0 {
      assert d + rest == rest;
    } else {
      LeadingDigitsOf(d[1..], rest);
      assert (d + rest)[1..] == d[1..] + rest;
      assert d == [d[0]] + d[1..];
    }
  }
}
