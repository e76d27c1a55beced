/** The job search page: saved jobs kept without duplicate web addresses,
    removal by position, the query sent to the search model, and the filter
    panel that remembers its last state across visits. */
module JobSearch {
  import opened Options
  import opened Strings
  import opened Records
  import Seqs

  /** `jobs.some(j => j.web.uri === uri)`. */
  function HasUri(jobs: seq<Job>, uri: string): (r: bool)
    ensures r <==> exists i :: 0 <= i < |jobs| && jobs[i].uri == uri
  {
    if |jobs| == 0 then false
    else if jobs[0].uri == uri then true
    else
      var r := HasUri(jobs[1..], uri);
      assert forall i :: 1 <= i < |jobs| ==> jobs[i] == jobs[1..][i - 1];
      r
  }

  /** No two saved jobs share a web address. */
  predicate UniqueUris(jobs: seq<Job>) {
    forall i, j :: 0 <= i < j < |jobs| ==> jobs[i].uri != jobs[j].uri
  }

  /** `saveJob`: a job whose address is already saved is ignored; any other
      job goes to the end of the list. */
  function SaveJob(jobs: seq<Job>, job: Job): (r: seq<Job>)
    ensures (exists i :: 0 <= i < |jobs| && jobs[i].uri == job.uri) ==> r == jobs
    ensures (forall i :: 0 <= i < |jobs| ==> jobs[i].uri != job.uri) ==> r == jobs + [job]
    ensures UniqueUris(jobs) ==> UniqueUris(r)
  {
    if HasUri(jobs, job.uri) then jobs else jobs + [job]
  }

  /** Saving the same job twice is saving it once. */
  lemma SaveJobTwice(jobs: seq<Job>, job: Job)
    ensures SaveJob(SaveJob(jobs, job), job) == SaveJob(jobs, job)
    ensures exists i :: 0 <= i < |SaveJob(jobs, job)| && SaveJob(jobs, job)[i].uri == job.uri
  {
    var r := SaveJob(jobs, job);
    if !HasUri(jobs, job.uri) {
      assert r[|jobs|] == job;
    }
  }

  /** `removeSavedJob(index)`: keep every job whose position differs from
      `index`; an index outside the list removes nothing. */
  function RemoveSavedJob(jobs: seq<Job>, index: int): (r: seq<Job>)
    ensures !(0 <= index < |jobs|) ==> r == jobs
    ensures 0 <= index < |jobs| ==> r == jobs[..index] + jobs[index + 1..]
    ensures multiset(r) <= multiset(jobs)
    ensures UniqueUris(jobs) ==> UniqueUris(r)
  {
    RemoveAtFacts(jobs, index);
    Seqs.RemoveAt(jobs, index)
  }

  lemma RemoveAtFacts(jobs: seq<Job>, index: int)
    ensures 0 <= index < |jobs| ==> Seqs.RemoveAt(jobs, index) == jobs[..index] + jobs[index + 1..]
    ensures multiset(Seqs.RemoveAt(jobs, index)) <= multiset(jobs)
  {
    if 0 <= index < |jobs| {
      Seqs.RemoveAtMultiset(jobs, index);
      assert Seqs.RemoveAt(jobs, index) == jobs[..index] + jobs[index + 1..];
    }
  }

  /** Removing a job just saved at the end gives back the list it was saved to. */
  lemma SaveThenRemove(jobs: seq<Job>, job: Job)
    requires forall i :: 0 <= i < |jobs| ==> jobs[i].uri != job.uri
    ensures RemoveSavedJob(SaveJob(jobs, job), |jobs|) == jobs
  {
    assert (jobs + [job])[..|jobs|] == jobs;
  }

  /** The four optional search filters. */
  datatype Filters = Filters(company: string, salary: string, experience: string, locationType: string)

  const NoFilters: Filters := Filters("", "", "", "")

  /** No filter has a value (each one is falsy). */
  predicate AllEmpty(f: Filters) {
    f.company == "" && f.salary == "" && f.experience == "" && f.locationType == ""
  }

  /** 1 when the filter has a value, else 0. */
  function IsSet(v: string): nat {
    if v != "" then 1 else 0
  }

  /** The phrase each set filter contributes, in the fixed order company,
      salary, experience, location type: each phrase sits after the phrases
      of the set filters before it. */
  function Criteria(f: Filters): (r: seq<string>)
    ensures |r| == IsSet(f.company) + IsSet(f.salary) + IsSet(f.experience) + IsSet(f.locationType)
    ensures |r| == 0 <==> AllEmpty(f)
    ensures f.company != "" ==> r[0] == "at " + f.company
    ensures f.salary != "" ==> r[IsSet(f.company)] == "with a salary around " + f.salary
    ensures f.experience != "" ==>
      r[IsSet(f.company) + IsSet(f.salary)] == "suitable for " + f.experience + " level"
    ensures f.locationType != "" ==>
      r[IsSet(f.company) + IsSet(f.salary) + IsSet(f.experience)] == "that are " + f.locationType
    ensures forall i :: 0 <= i < |r| ==> r[i] != ""
  {
    (if f.company != "" then ["at " + f.company] else [])
    + (if f.salary != "" then ["with a salary around " + f.salary] else [])
    + (if f.experience != "" then ["suitable for " + f.experience + " level"] else [])
    + (if f.locationType != "" then ["that are " + f.locationType] else [])
  }

  /** The query sent to the search model: the user's query as typed, then,
      when some filter is set, a space and the criteria joined by `", "`. */
  function DetailedQuery(query: string, f: Filters): (r: string)
    ensures AllEmpty(f) ==> r == query
    ensures !AllEmpty(f) ==> r == query + " " + Join(Criteria(f), ", ")
  {
    var criteria := Criteria(f);
    if |criteria| > 0 then query + " " + Join(criteria, ", ") else query
  }

  /** The query is always a prefix of what is sent, and something follows it
      exactly when a filter is set. */
  lemma DetailedQueryExtends(query: string, f: Filters)
    ensures |DetailedQuery(query, f)| >= |query| && DetailedQuery(query, f)[..|query|] == query
    ensures |DetailedQuery(query, f)| > |query| <==> !AllEmpty(f)
  {
    var r := DetailedQuery(query, f);
    assert r[..|query|] == query;
  }

  /** Only the company set: the query is followed by `" at <company>"`. */
  lemma CompanyOnly(query: string, company: string)
    requires company != ""
    ensures DetailedQuery(query, Filters(company, "", "", "")) == query + " at " + company
  {
    var f := Filters(company, "", "", "");
    assert Criteria(f) == ["at " + company];
  }

  /** Every filter set: the four phrases in order, comma-separated. */
  lemma AllFilters(query: string, c: string, s: string, e: string, l: string)
    requires c != "" && s != "" && e != "" && l != ""
    ensures DetailedQuery(query, Filters(c, s, e, l))
      == query + " " + ("at " + c) + ", " + ("with a salary around " + s) + ", " + ("suitable for " + e + " level") + ", " + ("that are " + l)
  {
    var p0, p1, p2, p3 := "at " + c, "with a salary around " + s, "suitable for " + e + " level", "that are " + l;
    assert Criteria(Filters(c, s, e, l)) == [p0, p1, p2, p3];
    JoinFour(p0, p1, p2, p3, ", ");
  }

  lemma JoinFour(a: string, b: string, c: string, d: string, sep: string)
    ensures Join([a, b, c, d], sep) == a + sep + b + sep + c + sep + d
  {
    assert [a, b, c, d][1..] == [b, c, d];
    assert [b, c, d][1..] == [c, d];
    assert [c, d][1..] == [d];
    assert Join([c, d], sep) == c + sep + d;
    assert Join([b, c, d], sep) == b + sep + (c + sep + d);
    assert Join([a, b, c, d], sep) == a + sep + (b + sep + (c + sep + d));
  }

  /** The page state the search touches: the query box, the filter fields,
      whether the filter panel is open, and the filters kept in storage. */
  datatype Page = Page(query: string, filters: Filters, showFilters: bool, stored: Option<Filters>)

  /** The constructor: stored filters, when present, replace the defaults,
      and the panel opens when one of them has a value. */
  function Open(stored: Option<Filters>): (r: Page)
    ensures r.stored == stored && r.query == ""
    ensures stored.None? ==> r.filters == NoFilters && !r.showFilters
    ensures stored.Some? ==> r.filters == stored.value
    ensures r.showFilters <==> stored.Some? && !AllEmpty(stored.value)
  {
    match stored
    case None => Page("", NoFilters, false, None)
    case Some(f) => Page("", f, !AllEmpty(f), stored)
  }

  /** `search`: a query that is blank after trimming sends nothing and changes
      nothing; otherwise the filters are stored and the detailed query is sent. */
  function Search(p: Page): (r: (Page, Option<string>))
    ensures IsBlank(p.query) ==> r == (p, None)
    ensures !IsBlank(p.query) ==> r.0 == p.(stored := Some(p.filters))
    ensures !IsBlank(p.query) ==> r.1 == Some(DetailedQuery(p.query, p.filters))
  {
    if Trim(p.query) == "" then (p, None)
    else (p.(stored := Some(p.filters)), Some(DetailedQuery(p.query, p.filters)))
  }

  /** After a search, reopening the page restores the filters searched with,
      and the panel opens exactly when one of them was set. */
  lemma SearchThenReopen(p: Page)
    requires !IsBlank(p.query)
    ensures Open(Search(p).0.stored).filters == p.filters
    ensures Open(Search(p).0.stored).showFilters <==> !AllEmpty(p.filters)
  {
  }
}
