/** The root scrapping_school_data.py: the criteria extraction of the
    Criteria module run inline over a two-school dict, with neither
    alternative URL nor success flag, followed by two CSV files. Its
    module-level `data` list is a value the loops pass along. */
module ThemesScript {
  import opened Wrappers
  import opened Seqs
  import opened Tables
  import opened Criteria
  import opened SchoolData

  const POLYTECHNIQUE_URL := "https://www.letudiant.fr/etudes/annuaire-enseignement-superieur/etablissement/etablissement-ecole-polytechnique-7681.html#classement-des-ecoles-d-ingenieurs"
  const EFREI_URL := "https://www.letudiant.fr/fiches/etudes/fiche/efrei-ecole-d-ingenieurs.html"

  /** The `urls` dict literal, entry by entry; no entry has an alternative. */
  const URL_ROWS: seq<UrlRow> := [UrlRow("polytechnique", POLYTECHNIQUE_URL, None), UrlRow("efrei", EFREI_URL, None)]

  /** The file `csv.DictWriter` writes. */
  const CSV_FILENAME := "ecoles_thematiques.csv"
  /** The file the DataFrame is saved to. */
  const DF_FILENAME := "classements_letudiant.csv"

  /** The dict the literal builds: the two schools in literal order,
      each with its one URL and no alternative. */
  const URLS := SchoolTable(["polytechnique", "efrei"],
    map["polytechnique" := Sources(POLYTECHNIQUE_URL, ""), "efrei" := Sources(EFREI_URL, "")])

  /** A dict literal inserts its entries in order, as `load_urls` does. */
  lemma UrlsLiteral()
    ensures URLS == TableOf(URL_ROWS) && WellFormed(URLS)
  {
    var first := URL_ROWS[..1];
    assert first[..0] == [] && TableOf(first[..0]) == EMPTY;
    var t1 := TableOf(first);
    assert t1 == Insert(EMPTY, "polytechnique", Sources(POLYTECHNIQUE_URL, ""));
    assert t1 == SchoolTable(["polytechnique"], map["polytechnique" := Sources(POLYTECHNIQUE_URL, "")]);
    assert URL_ROWS[..|URL_ROWS| - 1] == first;
    assert "efrei" !in t1.entries;
  }

  /** No school of `t` has an alternative URL. */
  ghost predicate NoAlternatives(t: SchoolTable) {
    forall k :: k in t.entries ==> t.entries[k].altUrl == ""
  }

  /** The extraction of the whole script over the dict. It is the run of
      data/scrapping_school_data.py with the same ids, since no school has
      an alternative URL. */
  ghost function ScriptRun(render: string -> DetailPage): SchoolRun {
    UrlsLiteral();
    Run(URLS, PageOf(render, THEMATICS_IDS))
  }

  /** A school without alternative: the attempt on its URL alone. */
  lemma NoFallback(key: string, url: string, scrape: PageScrape)
    ensures SchoolOutcome(key, Sources(url, ""), scrape)
      == SchoolRun(scrape(key, url).records, [url], scrape(key, url).failure)
  {
  }

  /** Each school's page is loaded exactly once, in dict order, unless a
      failure at the first school stops the script before the second;
      whatever the pages hold, no other page is loaded. */
  lemma ScriptLoadsEachSchoolOnce(scrape: PageScrape)
    ensures WellFormed(URLS)
    ensures Run(URLS, scrape).fetched ==
      if scrape("polytechnique", POLYTECHNIQUE_URL).failure.Some?
      then [POLYTECHNIQUE_URL] else [POLYTECHNIQUE_URL, EFREI_URL]
  {
    UrlsLiteral();
    NoFallback("polytechnique", POLYTECHNIQUE_URL, scrape);
    NoFallback("efrei", EFREI_URL, scrape);
    assert RunOver(URLS, scrape, 0) == SchoolRun([], [], None);
    assert URLS.keys[0] == "polytechnique" && URLS.keys[1] == "efrei";
    assert URLS.entries["polytechnique"] == Sources(POLYTECHNIQUE_URL, "");
    assert URLS.entries["efrei"] == Sources(EFREI_URL, "");
    var first := RunOver(URLS, scrape, 1);
    assert first.fetched == [POLYTECHNIQUE_URL] && first.failure == scrape("polytechnique", POLYTECHNIQUE_URL).failure;
    if first.failure.None? {
      assert RunOver(URLS, scrape, 2).fetched == first.fetched + [EFREI_URL];
    }
  }

  /** Every record of the script belongs to one of the two schools and to
      one of the configured ids. */
  lemma ScriptRecordsTagged(render: string -> DetailPage)
    ensures forall r :: r in ScriptRun(render).records ==>
      r.school in ["polytechnique", "efrei"] && r.themeId in THEMATICS_IDS
  {
    UrlsLiteral();
    PagesSound(render, THEMATICS_IDS);
    RunRecordsTagged(URLS, PageOf(render, THEMATICS_IDS), THEMATICS_IDS, |URLS.keys|);
  }

  // ---------------------------------------------------------------------
  // The loops

  /** The rows loop of one criteria div; a row without label span raises
      inside the `try` and is skipped. */
  method AppendCriteria(data: seq<CriterionRecord>, key: string, title: string, id: int, rows: seq<CriterionRow>)
    returns (out: seq<CriterionRecord>)
    ensures out == data + ThemeRecords(key, title, id, rows)
  {
    out := data;
    for j := 0 to |rows|
      invariant out == data + ThemeRecords(key, title, id, rows[..j])
    {
      var r := RowRecord(key, title, id, rows[j]);
      ThemeRecordsStep(key, title, id, rows, j);
      if r.Some? {
        out := out + [r.value];
      }
    }
    assert rows[..|rows|] == rows;
  }

  /** One thematic id: its title, its criteria div, and the records of
      that div appended. */
  method ThemeIteration(data: seq<CriterionRecord>, key: string, page: DetailPage, id: int)
    returns (out: seq<CriterionRecord>, o: ThemeOutcome)
    ensures o == ThemeOf(key, page, id) && out == data + Contributed(o)
  {
    out := data;
    var titre := SectionTitle(page, id);
    if titre.Err? {
      o := Failed(titre.error);
      return;
    }
    var thematicDiv := FindDiv(page, CriteriaSuffix(id));
    if thematicDiv.None? {
      o := Absent;
      return;
    }
    var rows := page[thematicDiv.value].rows;
    out := AppendCriteria(data, key, titre.value, id, rows);
    o := Found(ThemeRecords(key, titre.value, id, rows));
  }

  /** Iteration `t` of the loop over the ids, as a step of the fold. */
  method ThemeNext(data: seq<CriterionRecord>, key: string, page: DetailPage, ids: seq<int>, t: nat,
                   ghost base: seq<CriterionRecord>, ghost acc: Attempt)
    returns (out: seq<CriterionRecord>, o: ThemeOutcome, ghost next: Attempt)
    requires t < |ids| && acc == AttemptOver(Outcomes(key, page, ids[..t])) && acc.failure.None?
    requires data == base + acc.records
    ensures next == AttemptOver(Outcomes(key, page, ids[..t + 1])) && out == base + next.records
    ensures next.failure == if o.Failed? then Some(o.failure) else None
  {
    out, o := ThemeIteration(data, key, page, ids[t]);
    OutcomesStep(key, page, ids, t);
    StepContributes(acc, o);
    AppendAssoc(base, acc.records, Contributed(o));
    next := ThemeStep(acc, o);
  }

  /** The loop over the ids for one loaded page; a header without `<h2>`
      escapes it with the records appended so far. */
  method ThemesLoop(data: seq<CriterionRecord>, key: string, page: DetailPage, ids: seq<int>)
    returns (out: seq<CriterionRecord>, failure: Option<Failure>)
    ensures out == data + PageAttempt(key, page, ids).records
    ensures failure == PageAttempt(key, page, ids).failure
  {
    out, failure := data, None;
    ghost var acc := Attempt([], false, None);
    var t := 0;
    while t < |ids| && failure.None?
      invariant 0 <= t <= |ids|
      invariant acc == AttemptOver(Outcomes(key, page, ids[..t]))
      invariant out == data + acc.records && failure == acc.failure
    {
      var o;
      out, o, acc := ThemeNext(out, key, page, ids, t, data, acc);
      if o.Failed? {
        failure := Some(o.failure);
      }
      t := t + 1;
    }
    PageFromOutcomes(key, page, ids, t);
  }

  /** Iteration `i` of the loop over the dict: the school's page loaded
      once and its ids scraped. */
  method SchoolIteration(data: seq<CriterionRecord>, table: SchoolTable, ids: seq<int>, i: nat, render: string -> DetailPage,
                         ghost prev: SchoolRun)
    returns (out: seq<CriterionRecord>, failure: Option<Failure>, ghost next: SchoolRun)
    requires WellFormed(table) && NoAlternatives(table) && i < |table.keys|
    requires prev == RunOver(table, PageOf(render, ids), i) && prev.failure.None?
    requires data == prev.records
    ensures next == RunOver(table, PageOf(render, ids), i + 1) && out == next.records
    ensures failure == next.failure
  {
    var schoolKey := table.keys[i];
    var url := table.entries[schoolKey].url;
    var page := render(url);
    out, failure := ThemesLoop(data, schoolKey, page, ids);
    ghost var scrape := PageOf(render, ids);
    NoFallback(schoolKey, url, scrape);
    assert table.entries[schoolKey] == Sources(url, "");
    ghost var o := SchoolOutcome(schoolKey, table.entries[schoolKey], scrape);
    next := SchoolRun(prev.records + o.records, prev.fetched + o.fetched, o.failure);
  }

  /** The loop over the dict: the records of every school in dict order;
      a failure escapes the loop. */
  method SchoolsLoop(table: SchoolTable, ids: seq<int>, render: string -> DetailPage) returns (data: seq<CriterionRecord>, failure: Option<Failure>)
    requires WellFormed(table) && NoAlternatives(table)
    ensures data == Run(table, PageOf(render, ids)).records
    ensures failure == Run(table, PageOf(render, ids)).failure
  {
    data, failure := [], None;
    ghost var run := SchoolRun([], [], None);
    var i := 0;
    while i < |table.keys| && failure.None?
      invariant 0 <= i <= |table.keys|
      invariant run == RunOver(table, PageOf(render, ids), i)
      invariant data == run.records && failure == run.failure
    {
      data, failure, run := SchoolIteration(data, table, ids, i, render, run);
      i := i + 1;
    }
    RunFinished(table, PageOf(render, ids), i);
  }

  /** `writeheader` then `writerows`: the header, then one line per record
      in append order. */
  method WriteRows(data: seq<CriterionRecord>) returns (written: seq<seq<string>>)
    ensures written == CriteriaCsv(data)
  {
    written := [COLUMNS];
    for i := 0 to |data|
      invariant written == [COLUMNS] + seq(i, j requires 0 <= j < i => Cells(data[j]))
    {
      written := written + [Cells(data[i])];
    }
  }

  /** What pandas writes for the records: no record gives a DataFrame
      without columns. */
  function PandasCsv(data: seq<CriterionRecord>): (t: seq<seq<string>>)
    ensures |t| == |data| + 1
    ensures t[0] == if data == [] then [] else COLUMNS
  {
    FrameCsv(Frame(if data == [] then [] else COLUMNS, data))
  }

  /** `pd.DataFrame(data).to_csv(index=False)`: the columns are the keys
      of the dicts, in insertion order. */
  method SaveDataFrame(data: seq<CriterionRecord>) returns (csv: seq<seq<string>>)
    ensures csv == PandasCsv(data)
  {
    var keyLists := seq(|data|, _ => COLUMNS);
    ColumnsDistinct();
    UniformFrameColumns(keyLists, COLUMNS);
    csv := FrameCsv(Frame(FrameColumns(keyLists), data));
  }

  /** Once some record was scraped, the two files hold the same table. */
  lemma PandasMatchesDictWriter(data: seq<CriterionRecord>)
    requires data != []
    ensures PandasCsv(data) == CriteriaCsv(data)
  {
  }

  /** The script: the records of the dict's schools, then the
      `csv.DictWriter` file and the pandas file; a failure escapes before
      either file is written. */
  method Script(render: string -> DetailPage) returns (r: Result<(seq<seq<string>>, seq<seq<string>>), Failure>)
    ensures r.Ok? <==> ScriptRun(render).failure.None?
    ensures r.Err? ==> ScriptRun(render).failure == Some(r.error)
    ensures r.Ok? ==> r.value.0 == CriteriaCsv(ScriptRun(render).records)
    ensures r.Ok? ==> r.value.1 == PandasCsv(ScriptRun(render).records)
  {
    UrlsLiteral();
    var data, failure := SchoolsLoop(URLS, THEMATICS_IDS, render);
    if failure.Some? {
      return Err(failure.value);
    }
    var written := WriteRows(data);
    var saved := SaveDataFrame(data);
    return Ok((written, saved));
  }
}
