/** `extract_photos`: the image sources of a detail page that are not logos
    (nor, in the two-page scraper, icons), resolved against the site's base
    URL, at most five of them, joined with commas. */
module Photos {
  import opened Text
  import opened Lists

  const MaxPhotos: nat := 5

  /** The two-page filter: a non-empty `src` that mentions neither 'logo'
      nor 'icon' in any letter case. */
  predicate KeptTwoPage(src: string) {
    src != "" && !Contains(Lower(src), "logo") && !Contains(Lower(src), "icon")
  }

  /** The first-page filter: a non-empty `src` that does not mention 'logo'. */
  predicate KeptFirstPage(src: string) {
    src != "" && !Contains(Lower(src), "logo")
  }

  /** What the two-page scraper keeps, stated as a pipeline: filter, resolve,
      drop repeated URLs, keep five. */
  function PhotoUrlsTwoPage(srcs: seq<string>, join: string -> string): seq<string> {
    Take(Dedup(Map(Filter(srcs, KeptTwoPage), join)), MaxPhotos)
  }

  /** The first-page scraper keeps repeated URLs. */
  function PhotoUrlsFirstPage(srcs: seq<string>, join: string -> string): seq<string> {
    Take(Map(Filter(srcs, KeptFirstPage), join), MaxPhotos)
  }

  /** `extract_photos` of the two-page scraper: one pass over the images,
      `join` standing for `urljoin(base_url, src)`. */
  method ExtractPhotosTwoPage(srcs: seq<string>, join: string -> string) returns (field: string)
    ensures field == Join(PhotoUrlsTwoPage(srcs, join), ',')
  {
    var photos: seq<string> := [];
    var i := 0;
    while i < |srcs|
      invariant 0 <= i <= |srcs|
      invariant photos == Dedup(Map(Filter(srcs[..i], KeptTwoPage), join))
    {
      var src := srcs[i];
      assert srcs[..i + 1] == srcs[..i] + [src];
      FilterSnoc(srcs[..i], src, KeptTwoPage);
      if KeptTwoPage(src) {
        var url := join(src);
        MapSnoc(Filter(srcs[..i], KeptTwoPage), src, join);
        DedupSnoc(Map(Filter(srcs[..i], KeptTwoPage), join), url);
        if url !in photos {
          photos := photos + [url];
        }
      }
      i := i + 1;
    }
    assert srcs[..|srcs|] == srcs;
    field := Join(Take(photos, MaxPhotos), ',');
  }

  /** `extract_photos` of the first-page scraper. */
  method ExtractPhotosFirstPage(srcs: seq<string>, join: string -> string) returns (field: string)
    ensures field == Join(PhotoUrlsFirstPage(srcs, join), ',')
  {
    var photos: seq<string> := [];
    var i := 0;
    while i < |srcs|
      invariant 0 <= i <= |srcs|
      invariant photos == Map(Filter(srcs[..i], KeptFirstPage), join)
    {
      var src := srcs[i];
      assert srcs[..i + 1] == srcs[..i] + [src];
      FilterSnoc(srcs[..i], src, KeptFirstPage);
      if KeptFirstPage(src) {
        MapSnoc(Filter(srcs[..i], KeptFirstPage), src, join);
        photos := photos + [join(src)];
      }
      i := i + 1;
    }
    assert srcs[..|srcs|] == srcs;
    field := Join(Take(photos, MaxPhotos), ',');
  }

  /** The URLs the image sources `keep` accepts resolve to, with repeats. */
  function KeptUrls(srcs: seq<string>, keep: string -> bool, join: string -> string): seq<string> {
    Map(Filter(srcs, keep), join)
  }

  /** Every URL of `urls` is resolved from an image source `keep` accepts. */
  predicate FromKept(urls: seq<string>, srcs: seq<string>, keep: string -> bool, join: string -> string) {
    forall k :: 0 <= k < |urls| ==> urls[k] in KeptUrls(srcs, keep, join)
  }

  /** A URL in that list comes from a source the filter accepted. */
  lemma KeptUrlSource(srcs: seq<string>, keep: string -> bool, join: string -> string, u: string)
    requires u in KeptUrls(srcs, keep, join)
    ensures exists j :: 0 <= j < |srcs| && keep(srcs[j]) && u == join(srcs[j])
  {
    var f := Filter(srcs, keep);
    var k :| 0 <= k < |f| && Map(f, join)[k] == u;
    FilterMembers(srcs, keep, f[k]);
    var j :| 0 <= j < |srcs| && srcs[j] == f[k];
    assert keep(srcs[j]) && u == join(srcs[j]);
  }

  /** Every image source that passes the filter has its URL in the list. */
  lemma KeptUrlPresent(srcs: seq<string>, keep: string -> bool, join: string -> string, j: int)
    requires 0 <= j < |srcs| && keep(srcs[j])
    ensures join(srcs[j]) in KeptUrls(srcs, keep, join)
  {
    FilterMembers(srcs, keep, srcs[j]);
    var f := Filter(srcs, keep);
    var k :| 0 <= k < |f| && f[k] == srcs[j];
    assert Map(f, join)[k] == join(srcs[j]);
  }

  /** The two-page photo list: at most five URLs, no repeats, each resolved
      from an image that is neither a logo nor an icon, in the order of
      their first occurrence; and when the page has at most five such
      distinct URLs, all of them are listed. */
  lemma PhotosTwoPage(srcs: seq<string>, join: string -> string)
    ensures var p := PhotoUrlsTwoPage(srcs, join);
      && |p| <= MaxPhotos
      && NoDups(p)
      && FromKept(p, srcs, KeptTwoPage, join)
    ensures var d := Dedup(Map(Filter(srcs, KeptTwoPage), join));
      |d| <= MaxPhotos ==>
        forall j :: 0 <= j < |srcs| && KeptTwoPage(srcs[j]) ==> join(srcs[j]) in PhotoUrlsTwoPage(srcs, join)
  {
    var m := KeptUrls(srcs, KeptTwoPage, join);
    var d := Dedup(m);
    var p := PhotoUrlsTwoPage(srcs, join);
    DedupProps(m);
    TakeNoDups(d, MaxPhotos);
    assert forall k :: 0 <= k < |p| ==> p[k] == d[k];
    if |d| <= MaxPhotos {
      forall j | 0 <= j < |srcs| && KeptTwoPage(srcs[j]) ensures join(srcs[j]) in p {
        KeptUrlPresent(srcs, KeptTwoPage, join, j);
        var k :| 0 <= k < |m| && m[k] == join(srcs[j]);
      }
    }
  }

  /** The two-page photos keep the order in which each URL first occurs
      among the kept images. */
  lemma PhotosInOrder(srcs: seq<string>, join: string -> string)
    ensures var p := PhotoUrlsTwoPage(srcs, join);
      var m := KeptUrls(srcs, KeptTwoPage, join);
      forall i, j :: 0 <= i < j < |p| ==> p[i] in m && p[j] in m && FirstIndex(m, p[i]) < FirstIndex(m, p[j])
  {
    var m := KeptUrls(srcs, KeptTwoPage, join);
    var d := Dedup(m);
    var p := PhotoUrlsTwoPage(srcs, join);
    DedupOrder(m);
    assert forall k :: 0 <= k < |p| ==> p[k] == d[k];
  }

  /** The first-page photo list: at most five URLs, each from an image that
      is not a logo, in page order. */
  lemma PhotosFirstPage(srcs: seq<string>, join: string -> string)
    ensures var p := PhotoUrlsFirstPage(srcs, join);
      && |p| <= MaxPhotos
      && FromKept(p, srcs, KeptFirstPage, join)
  {
    var m := KeptUrls(srcs, KeptFirstPage, join);
    var p := PhotoUrlsFirstPage(srcs, join);
    assert forall k :: 0 <= k < |p| ==> p[k] == m[k];
  }

  /** Filters that agree on every element select the same elements. */
  lemma {:induction false} FilterAgree(xs: seq<string>, keep1: string -> bool, keep2: string -> bool)
    requires forall k :: 0 <= k < |xs| ==> keep1(xs[k]) == keep2(xs[k])
    ensures Filter(xs, keep1) == Filter(xs, keep2)
  {
    if |xs| > 0 {
      FilterAgree(xs[..|xs| - 1], keep1, keep2);
    }
  }

  /** On a page with no icon images whose resolved URLs are all distinct,
      the two scrapers list the same photos. */
  lemma PhotoVersionsAgree(srcs: seq<string>, join: string -> string)
    requires forall k :: 0 <= k < |srcs| ==> !Contains(Lower(srcs[k]), "icon")
    requires NoDups(Map(Filter(srcs, KeptFirstPage), join))
    ensures PhotoUrlsTwoPage(srcs, join) == PhotoUrlsFirstPage(srcs, join)
  {
    FilterAgree(srcs, KeptTwoPage, KeptFirstPage);
    DedupOfDistinct(Map(Filter(srcs, KeptFirstPage), join));
  }

  /** A consumer that splits the photos field at commas gets the list back,
      provided some photo was kept and no URL holds a comma. */
  lemma PhotoFieldRoundTrip(srcs: seq<string>, join: string -> string)
    requires PhotoUrlsTwoPage(srcs, join) != []
    requires forall j :: 0 <= j < |srcs| ==> ',' !in join(srcs[j])
    ensures Split(Join(PhotoUrlsTwoPage(srcs, join), ','), ',') == PhotoUrlsTwoPage(srcs, join)
  {
    var p := PhotoUrlsTwoPage(srcs, join);
    PhotosTwoPage(srcs, join);
    forall k | 0 <= k < |p| ensures ',' !in p[k] {
      KeptUrlSource(srcs, KeptTwoPage, join, p[k]);
    }
    SplitJoin(p, ',');
  }
}
