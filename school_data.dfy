/** The class `ScrappingSchoolData` of data/scrapping_school_data.py: the
    table of schools it loads from the links CSV, the criteria records it
    accumulates while visiting each school's detail page (with a fallback
    page when the first one has no criteria section), and their export.

    The browser is the parameter `render`: the page it shows for a URL. */
module SchoolData {
  import opened Wrappers
  import opened Text
  import opened Seqs
  import opened Tables
  import opened Criteria

  /** Config.CSV_SCHOOL_URLS and Config.CSV_SCORE_CLASSEMENT_LETUDIANT. */
  const CSV_SCHOOL_URLS := "liens_fiches_ecoles.csv"
  const CSV_SCORE_CLASSEMENT_LETUDIANT := "classements_letudiant.csv"

  /** One line of the links CSV; `altUrl` is None when the file has no
      `alt_url` column. */
  datatype UrlRow = UrlRow(name: string, url: string, altUrl: Option<string>)

  /** The value stored per school: `{"url": ..., "alt_url": ...}`, with ""
      for an absent alternative. */
  datatype Sources = Sources(url: string, altUrl: string)

  function SourcesOf(row: UrlRow): Sources {
    Sources(row.url, row.altUrl.GetOr(""))
  }

  /** A Python dict from school name to sources: the keys in insertion
      order and the value of each. */
  datatype SchoolTable = SchoolTable(keys: seq<string>, entries: map<string, Sources>)

  ghost predicate WellFormed(t: SchoolTable) {
    Distinct(t.keys) && forall k :: k in t.entries <==> k in t.keys
  }

  const EMPTY: SchoolTable := SchoolTable([], map[])

  /** `d[k] = v`: a new key goes last; an existing key keeps its place. */
  function Insert(t: SchoolTable, k: string, v: Sources): (r: SchoolTable)
    requires WellFormed(t)
    ensures WellFormed(r)
  {
    if k in t.entries then SchoolTable(t.keys, t.entries[k := v])
    else
      var r := SchoolTable(t.keys + [k], t.entries[k := v]);
      assert forall j :: j in r.keys <==> j in t.keys || j == k;
      r
  }

  function Names(rows: seq<UrlRow>): (ns: seq<string>)
    ensures |ns| == |rows| && forall i :: 0 <= i < |rows| ==> ns[i] == rows[i].name
  {
    seq(|rows|, i requires 0 <= i < |rows| => rows[i].name)
  }

  /** The dict comprehension of `load_urls`, row after row. */
  function TableOf(rows: seq<UrlRow>): (t: SchoolTable)
    ensures WellFormed(t)
  {
    if rows == [] then EMPTY
    else Insert(TableOf(rows[..|rows| - 1]), rows[|rows| - 1].name, SourcesOf(rows[|rows| - 1]))
  }

  /** The schools are the distinct names, in order of first appearance:
      the same ordered union pandas uses for columns. */
  lemma {:induction false} TableKeysInFirstOrder(rows: seq<UrlRow>)
    ensures TableOf(rows).keys == AddKeys([], Names(rows))
  {
    if rows != [] {
      var n := |rows| - 1;
      var init := rows[..n];
      TableKeysInFirstOrder(init);
      assert Names(rows)[..n] == Names(init);
      var prev := TableOf(init);
      assert rows[n].name in prev.entries <==> rows[n].name in AddKeys([], Names(init));
    }
  }

  /** A name is a school exactly when some line carries it, and the
      school keeps the sources of the last such line. */
  lemma {:induction false} LastRowWins(rows: seq<UrlRow>, i: nat)
    requires i < |rows|
    requires forall j :: i < j < |rows| ==> rows[j].name != rows[i].name
    ensures rows[i].name in TableOf(rows).entries
    ensures TableOf(rows).entries[rows[i].name] == SourcesOf(rows[i])
  {
    var n := |rows| - 1;
    if i < n {
      var init := rows[..n];
      LastRowWins(init, i);
    }
  }

  lemma {:induction false} TableNames(rows: seq<UrlRow>)
    ensures forall k :: k in TableOf(rows).entries <==> exists i :: 0 <= i < |rows| && rows[i].name == k
  {
    if rows != [] {
      var n := |rows| - 1;
      var init := rows[..n];
      TableNames(init);
      assert forall i :: 0 <= i < n ==> init[i] == rows[i];
    }
  }

  /** A file without `alt_url` column, such as the one the ranking
      extraction writes, gives no school an alternative URL. */
  lemma {:induction false} NoAltColumnNoAlternative(rows: seq<UrlRow>)
    requires forall i :: 0 <= i < |rows| ==> rows[i].altUrl.None?
    ensures forall k :: k in TableOf(rows).entries ==> TableOf(rows).entries[k].altUrl == ""
  {
    if rows != [] {
      NoAltColumnNoAlternative(rows[..|rows| - 1]);
    }
  }

  // ---------------------------------------------------------------------
  // Visiting the schools

  /** Loading one page and extracting its criteria: the school key and
      the URL give the attempt. */
  type PageScrape = (string, string) -> Attempt

  /** The scrape of a browser showing `render(url)` for each URL. */
  function PageOf(render: string -> DetailPage, ids: seq<int>): PageScrape {
    (key: string, url: string) => PageAttempt(key, render(url), ids)
  }

  /** What the visits rely on about one page: a page without criteria
      section adds no record, and the records carry the school and one of
      the ids. */
  ghost predicate Sound(scrape: PageScrape, ids: seq<int>) {
    (forall k, u :: !scrape(k, u).found ==> scrape(k, u).records == [])
    && (forall k, u, r :: r in scrape(k, u).records ==> r.school == k && r.themeId in ids)
  }

  lemma PagesSound(render: string -> DetailPage, ids: seq<int>)
    ensures Sound(PageOf(render, ids), ids)
  {
    PagesEmptyWhenNotFound(render, ids);
    PagesTagged(render, ids);
  }

  lemma PagesEmptyWhenNotFound(render: string -> DetailPage, ids: seq<int>)
    ensures forall k, u :: !PageOf(render, ids)(k, u).found ==> PageOf(render, ids)(k, u).records == []
  {
    forall k, u ensures !PageAttempt(k, render(u), ids).found ==> PageAttempt(k, render(u), ids).records == [] {
      PageFoundIff(k, render(u), ids);
    }
  }

  lemma PagesTagged(render: string -> DetailPage, ids: seq<int>)
    ensures forall k, u, r :: r in PageOf(render, ids)(k, u).records ==> r.school == k && r.themeId in ids
  {
    forall k, u ensures forall r :: r in PageAttempt(k, render(u), ids).records ==> r.school == k && r.themeId in ids {
      PageRecordsTagged(k, render(u), ids);
    }
  }

  /** What visiting one school gives: the records appended, the pages
      loaded, and the failure that aborts everything, if any. */
  datatype SchoolRun = SchoolRun(records: seq<CriterionRecord>, fetched: seq<string>, failure: Option<Failure>)

  /** The primary page, then the alternative one if the primary found no
      criteria section and the alternative is non-empty. */
  function SchoolOutcome(key: string, src: Sources, scrape: PageScrape): SchoolRun {
    var p := scrape(key, src.url);
    if p.failure.Some? then SchoolRun(p.records, [src.url], p.failure)
    else if !p.found && src.altUrl != "" then
      var q := scrape(key, src.altUrl);
      SchoolRun(p.records + q.records, [src.url, src.altUrl], q.failure)
    else SchoolRun(p.records, [src.url], None)
  }

  /** The first `n` schools in table order; a failure stops the run. */
  function RunOver(t: SchoolTable, scrape: PageScrape, n: nat): SchoolRun
    requires WellFormed(t) && n <= |t.keys|
  {
    if n == 0 then SchoolRun([], [], None)
    else
      var prev := RunOver(t, scrape, n - 1);
      if prev.failure.Some? then prev
      else
        var key := t.keys[n - 1];
        var o := SchoolOutcome(key, t.entries[key], scrape);
        SchoolRun(prev.records + o.records, prev.fetched + o.fetched, o.failure)
  }

  function Run(t: SchoolTable, scrape: PageScrape): SchoolRun
    requires WellFormed(t)
  {
    RunOver(t, scrape, |t.keys|)
  }

  /** The alternative page is loaded exactly when the primary one did not
      fail, found no criteria section, and an alternative exists; then
      the school's records are those of the alternative page alone;
      otherwise they are those of the primary page. */
  lemma FallbackPolicy(key: string, src: Sources, scrape: PageScrape, ids: seq<int>)
    requires Sound(scrape, ids)
    ensures SchoolOutcome(key, src, scrape).fetched[0] == src.url
    ensures |SchoolOutcome(key, src, scrape).fetched| == 2 <==>
      scrape(key, src.url).failure.None? && !scrape(key, src.url).found && src.altUrl != ""
    ensures |SchoolOutcome(key, src, scrape).fetched| == 2 ==>
      SchoolOutcome(key, src, scrape).fetched[1] == src.altUrl
      && SchoolOutcome(key, src, scrape).records == scrape(key, src.altUrl).records
      && SchoolOutcome(key, src, scrape).failure == scrape(key, src.altUrl).failure
    ensures |SchoolOutcome(key, src, scrape).fetched| == 1 ==>
      SchoolOutcome(key, src, scrape).records == scrape(key, src.url).records
      && SchoolOutcome(key, src, scrape).failure == scrape(key, src.url).failure
  {
    var p := scrape(key, src.url);
    if !p.found {
      assert p.records == [];
    }
  }

  /** Once a school fails, no later school is visited. */
  lemma {:induction false} RunStopsAtFailure(t: SchoolTable, scrape: PageScrape, n: nat, m: nat)
    requires WellFormed(t) && n <= m <= |t.keys|
    requires RunOver(t, scrape, n).failure.Some?
    ensures RunOver(t, scrape, m) == RunOver(t, scrape, n)
    decreases m
  {
    if n < m {
      RunStopsAtFailure(t, scrape, n, m - 1);
    }
  }

  /** A loop over the schools that stopped at the end of the table or at
      a failure has run them all. */
  lemma RunFinished(t: SchoolTable, scrape: PageScrape, n: nat)
    requires WellFormed(t) && n <= |t.keys|
    requires n == |t.keys| || RunOver(t, scrape, n).failure.Some?
    ensures Run(t, scrape) == RunOver(t, scrape, n)
  {
    if n < |t.keys| {
      RunStopsAtFailure(t, scrape, n, |t.keys|);
    }
  }

  /** Every record belongs to a school of the table and to one of the ids. */
  lemma {:induction false} RunRecordsTagged(t: SchoolTable, scrape: PageScrape, ids: seq<int>, n: nat)
    requires WellFormed(t) && n <= |t.keys| && Sound(scrape, ids)
    ensures forall r :: r in RunOver(t, scrape, n).records ==> r.school in t.keys && r.themeId in ids
  {
    if n > 0 {
      RunRecordsTagged(t, scrape, ids, n - 1);
      var prev := RunOver(t, scrape, n - 1);
      if prev.failure.None? {
        var key := t.keys[n - 1];
        var o := SchoolOutcome(key, t.entries[key], scrape);
        forall r | r in o.records ensures r.school == key && r.themeId in ids {
          var p := scrape(key, t.entries[key].url);
          if r !in p.records {
            assert r in scrape(key, t.entries[key].altUrl).records;
          }
        }
      }
    }
  }

  /** Without failure every school's primary page is loaded, in table
      order. */
  lemma {:induction false} RunFetchesEverySchool(t: SchoolTable, scrape: PageScrape, n: nat)
    requires WellFormed(t) && n <= |t.keys|
    requires RunOver(t, scrape, n).failure.None?
    ensures forall i :: 0 <= i < n ==> t.entries[t.keys[i]].url in RunOver(t, scrape, n).fetched
  {
    if n > 0 {
      var prev := RunOver(t, scrape, n - 1);
      RunFetchesEverySchool(t, scrape, n - 1);
      var key := t.keys[n - 1];
      var o := SchoolOutcome(key, t.entries[key], scrape);
      assert o.fetched[0] == t.entries[key].url;
      assert RunOver(t, scrape, n).fetched == prev.fetched + o.fetched;
    }
  }

  /** Without alternatives no fallback page is ever loaded: the pages
      loaded are primary ones, at most one per school. */
  lemma {:induction false} RunWithoutAlternatives(t: SchoolTable, scrape: PageScrape, n: nat)
    requires WellFormed(t) && n <= |t.keys|
    requires forall k :: k in t.entries ==> t.entries[k].altUrl == ""
    ensures forall u :: u in RunOver(t, scrape, n).fetched ==> exists i :: 0 <= i < n && t.entries[t.keys[i]].url == u
    ensures |RunOver(t, scrape, n).fetched| <= n
  {
    if n > 0 {
      RunWithoutAlternatives(t, scrape, n - 1);
      var prev := RunOver(t, scrape, n - 1);
      if prev.failure.None? {
        var key := t.keys[n - 1];
        var o := SchoolOutcome(key, t.entries[key], scrape);
        assert o.fetched == [t.entries[key].url];
      }
    }
  }

  // ---------------------------------------------------------------------
  // The DataFrame and its CSV

  /** A DataFrame: its columns and one record per row. */
  datatype Frame = Frame(columns: seq<string>, rows: seq<CriterionRecord>)

  /** The ValueError of `if self.data` once `self.data` is a DataFrame:
      the truth value of a DataFrame is ambiguous. */
  datatype FrameError = AmbiguousTruthValue

  /** `to_csv(index=False)`: the header, then each row's cells. */
  function FrameCsv(f: Frame): seq<seq<string>> {
    [f.columns] + seq(|f.rows|, i requires 0 <= i < |f.rows| => Cells(f.rows[i]))
  }

  class ScrappingSchoolData {
    var urls: SchoolTable
    const thematicsIds: seq<int>
    var data: seq<CriterionRecord>
    /** `self.data` has been replaced by the DataFrame of its records. */
    var converted: bool

    ghost predicate Valid()
      reads this`urls
    {
      WellFormed(urls)
    }

    /** The thematic ids are mandatory; no table means an empty one. */
    constructor(url: Option<SchoolTable>, thematicsIds: Option<seq<int>>)
      requires thematicsIds.Some?
      requires url.Some? ==> WellFormed(url.value)
      ensures Valid()
      ensures urls == url.GetOr(EMPTY) && this.thematicsIds == thematicsIds.value && data == [] && !converted
    {
      urls := url.GetOr(EMPTY);
      this.thematicsIds := thematicsIds.value;
      data := [];
      converted := false;
    }

    /** What appending the records `rs` leaves in `data`: all of them while
        `self.data` is a list, none once it is a DataFrame, whose `append`
        raises inside the row `try`. */
    function Appended(rs: seq<CriterionRecord>): (kept: seq<CriterionRecord>)
      reads this`converted
      ensures kept == [] || kept == rs
      ensures !converted ==> kept == rs
    {
      if converted then [] else rs
    }

    /** Reads the links CSV at `path`, whose lines are `rows`. */
    method LoadUrls(path: string, rows: seq<UrlRow>)
      requires EndsWith(path, ".csv")
      modifies this`urls
      ensures Valid() && urls == TableOf(rows)
    {
      urls := TableOf(rows);
    }

    /** The rows loop of one criteria div; a row whose label is missing
        raises inside the `try` and is skipped, and so is every row once
        `data` is a DataFrame. */
    method AppendRows(key: string, title: string, id: int, rows: seq<CriterionRow>)
      modifies this`data
      ensures data == old(data) + Appended(ThemeRecords(key, title, id, rows))
    {
      for j := 0 to |rows|
        invariant converted ==> data == old(data)
        invariant !converted ==> data == old(data) + ThemeRecords(key, title, id, rows[..j])
      {
        var r := RowRecord(key, title, id, rows[j]);
        ThemeRecordsStep(key, title, id, rows, j);
        if r.Some? && !converted {
          data := data + [r.value];
        }
      }
      assert rows[..|rows|] == rows;
    }

    /** One iteration of the loop over the thematic ids: the title, the
        criteria div, and its records appended. */
    method ScrapeTheme(key: string, page: DetailPage, id: int) returns (o: ThemeOutcome)
      modifies this`data
      ensures o == ThemeOf(key, page, id) && data == old(data) + Appended(Contributed(o))
    {
      var title := SectionTitle(page, id);
      if title.Err? {
        o := Failed(title.error);
        return;
      }
      var found := FindDiv(page, CriteriaSuffix(id));
      if found.None? {
        o := Absent;
        return;
      }
      var before := data;
      AppendRows(key, title.value, id, page[found.value].rows);
      o := Found(ThemeRecords(key, title.value, id, page[found.value].rows));
    }

    /** Iteration `t` of the loop, as a step of the fold over the ids: the
        outcome of id `t`, and `data` extended by what it contributes. */
    method ScrapeNext(key: string, page: DetailPage, t: nat, ghost base: seq<CriterionRecord>, ghost acc: Attempt)
      returns (o: ThemeOutcome, ghost next: Attempt)
      requires t < |thematicsIds| && acc == AttemptOver(Outcomes(key, page, thematicsIds[..t])) && acc.failure.None?
      requires data == base + Appended(acc.records)
      modifies this`data
      ensures next == AttemptOver(Outcomes(key, page, thematicsIds[..t + 1])) && data == base + Appended(next.records)
      ensures next.found == (acc.found || o.Found?)
      ensures next.failure == if o.Failed? then Some(o.failure) else None
    {
      o := ScrapeTheme(key, page, thematicsIds[t]);
      OutcomesStep(key, page, thematicsIds, t);
      StepContributes(acc, o);
      AppendAssoc(base, Appended(acc.records), Appended(Contributed(o)));
      next := ThemeStep(acc, o);
      assert Appended(next.records) == Appended(acc.records) + Appended(Contributed(o));
    }

    /** Loads `url` and extracts the criteria of every thematic id in
        order; `success` tells whether some criteria div was found. A
        header without `<h2>` aborts with the records appended so far. */
    method ScrapeSchoolData(key: string, url: string, render: string -> DetailPage) returns (success: bool, failure: Option<Failure>)
      modifies this`data
      ensures data == old(data) + Appended(PageAttempt(key, render(url), thematicsIds).records)
      ensures success == PageAttempt(key, render(url), thematicsIds).found
      ensures failure == PageAttempt(key, render(url), thematicsIds).failure
    {
      var page := render(url);
      success, failure := false, None;
      ghost var base := data;
      ghost var acc := Attempt([], false, None);
      var t := 0;
      while t < |thematicsIds| && failure.None?
        invariant 0 <= t <= |thematicsIds|
        invariant acc == AttemptOver(Outcomes(key, page, thematicsIds[..t]))
        invariant data == base + Appended(acc.records) && success == acc.found && failure == acc.failure
      {
        var o;
        o, acc := ScrapeNext(key, page, t, base, acc);
        if o.Failed? {
          failure := Some(o.failure);
        } else if o.Found? {
          success := true;
        }
        t := t + 1;
      }
      PageFromOutcomes(key, page, thematicsIds, t);
    }

    /** One school: its primary page, and its alternative one when the
        primary found nothing. */
    method ScrapeSchool(key: string, sources: Sources, render: string -> DetailPage)
      returns (failure: Option<Failure>, ghost fetched: seq<string>)
      modifies this`data
      ensures data == old(data) + Appended(SchoolOutcome(key, sources, PageOf(render, thematicsIds)).records)
      ensures failure == SchoolOutcome(key, sources, PageOf(render, thematicsIds)).failure
      ensures fetched == SchoolOutcome(key, sources, PageOf(render, thematicsIds)).fetched
    {
      ghost var scrape := PageOf(render, thematicsIds);
      ghost var before := data;
      var success;
      success, failure := ScrapeSchoolData(key, sources.url, render);
      assert scrape(key, sources.url) == PageAttempt(key, render(sources.url), thematicsIds);
      fetched := [sources.url];
      if failure.None? && !success && sources.altUrl != "" {
        ghost var primary := data[|before|..];
        var _, f := ScrapeSchoolData(key, sources.altUrl, render);
        assert scrape(key, sources.altUrl) == PageAttempt(key, render(sources.altUrl), thematicsIds);
        AppendAssoc(before, primary, Appended(scrape(key, sources.altUrl).records));
        fetched := [sources.url, sources.altUrl];
        failure := f;
      }
    }

    /** Iteration `i` of the loop over the schools, as a step of the run:
        school `i` visited and its records appended. */
    method VisitSchool(table: SchoolTable, i: nat, render: string -> DetailPage, ghost scrape: PageScrape,
                       ghost base: seq<CriterionRecord>, ghost prev: SchoolRun)
      returns (failure: Option<Failure>, ghost next: SchoolRun)
      requires scrape == PageOf(render, thematicsIds)
      requires WellFormed(table) && i < |table.keys|
      requires prev == RunOver(table, scrape, i) && prev.failure.None?
      requires data == base + Appended(prev.records)
      modifies this`data
      ensures next == RunOver(table, scrape, i + 1) && data == base + Appended(next.records)
      ensures failure == next.failure
    {
      var key := table.keys[i];
      ghost var schoolFetched;
      failure, schoolFetched := ScrapeSchool(key, table.entries[key], render);
      ghost var o := SchoolOutcome(key, table.entries[key], scrape);
      AppendAssoc(base, Appended(prev.records), Appended(o.records));
      next := SchoolRun(prev.records + o.records, prev.fetched + o.fetched, o.failure);
      assert Appended(next.records) == Appended(prev.records) + Appended(o.records);
    }

    /** Visits every school in table order; a failure stops the visits. */
    method ScrapeData(render: string -> DetailPage) returns (failure: Option<Failure>, ghost fetched: seq<string>)
      requires Valid()
      modifies this`data
      ensures data == old(data) + Appended(Run(urls, PageOf(render, thematicsIds)).records)
      ensures failure == Run(urls, PageOf(render, thematicsIds)).failure
      ensures fetched == Run(urls, PageOf(render, thematicsIds)).fetched
    {
      var table := urls;
      ghost var scrape := PageOf(render, thematicsIds);
      ghost var base := data;
      ghost var run := SchoolRun([], [], None);
      failure := None;
      var i := 0;
      while i < |table.keys| && failure.None?
        invariant 0 <= i <= |table.keys|
        invariant run == RunOver(table, scrape, i)
        invariant data == base + Appended(run.records) && failure == run.failure
      {
        failure, run := VisitSchool(table, i, render, scrape, base, run);
        i := i + 1;
      }
      assert i == |table.keys| || RunOver(table, scrape, i).failure.Some?;
      RunFinished(table, scrape, i);
      assert run == Run(table, scrape);
      fetched := run.fetched;
    }

    /** `convert_data_into_df`: the DataFrame of the records, with the six
        columns whether or not any record was scraped. It replaces
        `self.data`, so a second call fails on `if self.data`. */
    method ConvertDataIntoDf() returns (r: Result<Frame, FrameError>)
      modifies this`converted
      ensures converted
      ensures r.Ok? <==> !old(converted)
      ensures r.Ok? ==> r.value == Frame(COLUMNS, data)
      ensures r.Err? ==> r.error == AmbiguousTruthValue
    {
      if converted {
        return Err(AmbiguousTruthValue);
      }
      var df;
      if |data| > 0 {
        var keyLists := seq(|data|, _ => COLUMNS);
        ColumnsDistinct();
        UniformFrameColumns(keyLists, COLUMNS);
        df := Frame(FrameColumns(keyLists), data);
      } else {
        df := Frame(COLUMNS, []);
      }
      converted := true;
      return Ok(df);
    }

    /** The CSV written to `filename`: the same grid as the CSV of the
        criteria records. The conversion it goes through leaves `data` a
        DataFrame, so a second export fails. */
    method ExportDataToCsv(filename: string) returns (r: Result<seq<seq<string>>, FrameError>)
      modifies this`converted
      ensures converted
      ensures r.Ok? <==> !old(converted)
      ensures r.Ok? ==> r.value == CriteriaCsv(data)
      ensures r.Err? ==> r.error == AmbiguousTruthValue
    {
      var df := ConvertDataIntoDf();
      if df.Err? {
        return Err(df.error);
      }
      return Ok(FrameCsv(df.value));
    }
  }

  /** The script: the configured ids, the links CSV, every school, the
      export; a failure aborts before the export. */
  method ScrapeAndExport(rows: seq<UrlRow>, render: string -> DetailPage) returns (r: Result<seq<seq<string>>, Failure>)
    ensures r.Ok? <==> Run(TableOf(rows), PageOf(render, THEMATICS_IDS)).failure.None?
    ensures r.Ok? ==> r.value == CriteriaCsv(Run(TableOf(rows), PageOf(render, THEMATICS_IDS)).records)
    ensures r.Err? ==> Run(TableOf(rows), PageOf(render, THEMATICS_IDS)).failure == Some(r.error)
  {
    var scraper := new ScrappingSchoolData(None, Some(THEMATICS_IDS));
    EndsWithIffSlice(CSV_SCHOOL_URLS, ".csv");
    scraper.LoadUrls(CSV_SCHOOL_URLS, rows);
    assert !scraper.converted && scraper.thematicsIds == THEMATICS_IDS;
    var failure, _ := scraper.ScrapeData(render);
    ghost var run := Run(TableOf(rows), PageOf(render, THEMATICS_IDS));
    assert scraper.data == run.records;
    if failure.Some? {
      return Err(failure.value);
    }
    var exported := scraper.ExportDataToCsv(CSV_SCORE_CLASSEMENT_LETUDIANT);
    return Ok(exported.value);
  }
}
