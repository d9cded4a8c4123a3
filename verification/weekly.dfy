/** `weekly_update`: scrape the first listing page and append to the stored
    records those whose apply URL is not stored yet. Reading and writing
    the JSON and CSV files is outside the model: the stored records are a
    parameter (`None` when the file does not exist) and the records to
    write are the result (`None` when nothing is written). */
module Weekly {
  import opened Wrappers
  import opened Dates
  import opened Lists
  import opened Records
  import opened Crawl

  /** `existing_urls`. */
  function UrlSet(jobs: seq<JobRecord>): set<string> {
    set k | 0 <= k < |jobs| :: jobs[k].applyUrl
  }

  /** `new_jobs`: the scraped records whose URL is not stored, in order.
      Two scraped records with one URL are both kept: the check is against
      the stored records only. */
  function NewJobs(existing: seq<JobRecord>, jobs: seq<JobRecord>): (r: seq<JobRecord>)
    ensures |r| <= |jobs|
  {
    if |jobs| == 0 then []
    else
      var init := NewJobs(existing, jobs[..|jobs| - 1]);
      var j := jobs[|jobs| - 1];
      if j.applyUrl in UrlSet(existing) then init else init + [j]
  }

  /** A record is appended exactly when it was scraped and its URL is not
      stored. */
  lemma {:induction false} NewJobsMembers(existing: seq<JobRecord>, jobs: seq<JobRecord>, j: JobRecord)
    ensures j in NewJobs(existing, jobs) <==> j in jobs && j.applyUrl !in UrlSet(existing)
  {
    if |jobs| > 0 {
      var init := jobs[..|jobs| - 1];
      NewJobsMembers(existing, init, j);
      assert jobs == init + [jobs[|jobs| - 1]];
    }
  }

  /** The scraped records whose URL is stored contribute nothing. */
  lemma {:induction false} NewJobsAllStored(existing: seq<JobRecord>, jobs: seq<JobRecord>)
    requires forall k :: 0 <= k < |jobs| ==> jobs[k].applyUrl in UrlSet(existing)
    ensures NewJobs(existing, jobs) == []
  {
    if |jobs| > 0 {
      var init := jobs[..|jobs| - 1];
      assert forall k :: 0 <= k < |init| ==> init[k] == jobs[k];
      NewJobsAllStored(existing, init);
    }
  }

  /** The records to append keep the scrape's order and its repeats: the
      selection distributes over concatenation. */
  lemma {:induction false} NewJobsAppend(existing: seq<JobRecord>, a: seq<JobRecord>, b: seq<JobRecord>)
    ensures NewJobs(existing, a + b) == NewJobs(existing, a) + NewJobs(existing, b)
    decreases |b|
  {
    if |b| == 0 {
      assert a + b == a;
    } else {
      var b' := b[..|b| - 1];
      NewJobsAppend(existing, a, b');
      assert (a + b)[..|a + b| - 1] == a + b';
      assert (a + b)[|a + b| - 1] == b[|b| - 1];
    }
  }

  /** The file as `weekly_update` leaves it. */
  datatype Update = Update(scraped: seq<JobRecord>, written: Option<seq<JobRecord>>)

  /** Appending `new_jobs` to the stored records, when there are any. */
  function Merge(stored: Option<seq<JobRecord>>, jobs: seq<JobRecord>): (w: Option<seq<JobRecord>>)
    ensures w.Some? ==> |w.value| > |stored.GetOr([])|
    ensures w.Some? ==> w.value[..|stored.GetOr([])|] == stored.GetOr([])
  {
    var existing := stored.GetOr([]);
    var added := NewJobs(existing, jobs);
    if added == [] then None else Some(existing + added)
  }

  /** `weekly_update`: nothing is written when the scrape found nothing or
      found only stored URLs. */
  function WeeklyUpdate(env: Env, stored: Option<seq<JobRecord>>): (u: Update)
    requires Valid(env.today)
    ensures u.scraped == ScrapeAllPages(env, 1)
    ensures u.scraped == [] ==> u.written.None?
  {
    var jobs := ScrapeAllPages(env, 1);
    if jobs == [] then Update(jobs, None)
    else Update(jobs, Merge(stored, jobs))
  }

  /** What a write holds: the stored records unchanged and in front, then
      every scraped record with an unstored URL and nothing else; and a
      write happens exactly when there is such a record. */
  lemma MergeContents(stored: Option<seq<JobRecord>>, jobs: seq<JobRecord>)
    ensures var existing := stored.GetOr([]);
      Merge(stored, jobs).Some? <==> exists k :: 0 <= k < |jobs| && jobs[k].applyUrl !in UrlSet(existing)
    ensures var existing := stored.GetOr([]);
      Merge(stored, jobs).Some? ==>
        forall j :: j in Merge(stored, jobs).value[|existing|..] <==> j in jobs && j.applyUrl !in UrlSet(existing)
  {
    var existing := stored.GetOr([]);
    var added := NewJobs(existing, jobs);
    if exists k :: 0 <= k < |jobs| && jobs[k].applyUrl !in UrlSet(existing) {
      var k :| 0 <= k < |jobs| && jobs[k].applyUrl !in UrlSet(existing);
      NewJobsMembers(existing, jobs, jobs[k]);
    } else {
      NewJobsAllStored(existing, jobs);
    }
    if added != [] {
      assert (existing + added)[|existing|..] == added;
      forall j ensures j in added <==> j in jobs && j.applyUrl !in UrlSet(existing) {
        NewJobsMembers(existing, jobs, j);
      }
    }
  }

  /** Running the update again on what it wrote, with the same scrape,
      writes nothing. */
  lemma MergeIdempotent(stored: Option<seq<JobRecord>>, jobs: seq<JobRecord>)
    requires Merge(stored, jobs).Some?
    ensures Merge(Merge(stored, jobs), jobs).None?
  {
    var existing := stored.GetOr([]);
    var w := Merge(stored, jobs).value;
    forall k | 0 <= k < |jobs| ensures jobs[k].applyUrl in UrlSet(w) {
      if jobs[k].applyUrl in UrlSet(existing) {
        var i :| 0 <= i < |existing| && existing[i].applyUrl == jobs[k].applyUrl;
        assert w[i] == existing[i];
      } else {
        NewJobsMembers(existing, jobs, jobs[k]);
        var added := NewJobs(existing, jobs);
        var i :| 0 <= i < |added| && added[i] == jobs[k];
        assert w[|existing| + i] == added[i];
      }
    }
    NewJobsAllStored(w, jobs);
  }

  /** The duplicate the double fetch produces survives the update: two
      scraped records with one unstored URL are both appended. */
  lemma DuplicateAppended(stored: Option<seq<JobRecord>>, j: JobRecord)
    requires j.applyUrl !in UrlSet(stored.GetOr([]))
    ensures Merge(stored, [j, j]) == Some(stored.GetOr([]) + [j, j])
  {
    var existing := stored.GetOr([]);
    assert [j, j][..1] == [j];
    assert [j][..0] == [];
    assert NewJobs(existing, [j]) == [j];
    assert NewJobs(existing, [j, j]) == [j, j];
  }

  /** A weekly update writes exactly when the scrape found a record whose
      URL is not stored, and then writes the stored records followed by
      those records. */
  lemma WeeklyUpdateWrites(env: Env, stored: Option<seq<JobRecord>>)
    requires Valid(env.today)
    ensures var u := WeeklyUpdate(env, stored);
      var existing := stored.GetOr([]);
      && (u.written.Some? <==> exists k :: 0 <= k < |u.scraped| && u.scraped[k].applyUrl !in UrlSet(existing))
      && (u.written.Some? ==> u.written.value == existing + NewJobs(existing, u.scraped))
  {
    MergeContents(stored, ScrapeAllPages(env, 1));
  }

  /** Merging the stored records into themselves writes nothing. */
  lemma MergeSelf(xs: seq<JobRecord>)
    ensures Merge(Some(xs), xs).None?
  {
    NewJobsAllStored(xs, xs);
  }

  /** When no scraped URL is stored, every scraped record is appended, in
      scrape order. */
  lemma {:induction false} NewJobsNoneStored(existing: seq<JobRecord>, jobs: seq<JobRecord>)
    requires forall k :: 0 <= k < |jobs| ==> jobs[k].applyUrl !in UrlSet(existing)
    ensures NewJobs(existing, jobs) == jobs
  {
    if |jobs| > 0 {
      var init := jobs[..|jobs| - 1];
      assert forall k :: 0 <= k < |init| ==> init[k] == jobs[k];
      NewJobsNoneStored(existing, init);
      assert jobs == init + [jobs[|jobs| - 1]];
    }
  }
}
