/** Extraction of the themed scoring criteria of one school's detail page,
    common to data/scrapping_school_data.py and scrapping_school_data.py.

    A rendered detail page is modelled as its `<div>` elements in document
    order; each carries its `id`, the text of its first `<h2>` and the
    `criterion-row` divs inside it. */
module Criteria {
  import opened Wrappers
  import opened Text
  import opened Seqs

  /** Config.THEMATICS_IDS, also hard-coded in scrapping_school_data.py. */
  const THEMATICS_IDS: seq<int> := [425, 426, 427, 429, 430, 431]
  /** The six record fields, in declared order. */
  const COLUMNS: seq<string> := ["École", "Thématique", "ID Thématique", "Critère", "Score /10", "Note brute"]
  /** The six names are distinct: each is a column of its own. */
  lemma ColumnsDistinct()
    ensures Distinct(COLUMNS)
  {
    forall i, j | 0 <= i < j < |COLUMNS| ensures COLUMNS[i] != COLUMNS[j] {
      assert COLUMNS[i][0] != COLUMNS[j][0];
    }
  }

  /** The value of an absent score or note. */
  const MISSING := "N/A"

  /** The sub-elements of a `criterion-row` div: the label span, the score
      div and the note div, each given by its text nodes. */
  datatype CriterionRow = CriterionRow(labelSpan: Option<seq<string>>, score: Option<seq<string>>, note: Option<seq<string>>)

  datatype Div = Div(id: Option<string>, heading: Option<string>, rows: seq<CriterionRow>)

  type DetailPage = seq<Div>

  datatype CriterionRecord = CriterionRecord(
    school: string, title: string, themeId: int, criterion: string, score: string, note: string)

  /** `header_div.find("h2").text` on a header without `<h2>` raises an
      AttributeError that nothing catches. */
  datatype Failure = MissingHeading(themeId: int)

  function HeaderSuffix(id: int): string {
    IntToString(id) + "-header"
  }

  function CriteriaSuffix(id: int): string {
    IntToString(id) + "-criteria"
  }

  /** `id=lambda x: x and x.endswith(suffix)`. */
  predicate IdEndsWith(d: Div, suffix: string) {
    d.id.Some? && d.id.value != "" && EndsWith(d.id.value, suffix)
  }

  /** `soup.find("div", id=...)` from position `start`: the first match. */
  function FindDivFrom(page: DetailPage, suffix: string, start: nat): (r: Option<nat>)
    requires start <= |page|
    ensures r.Some? ==> start <= r.value < |page| && IdEndsWith(page[r.value], suffix)
    ensures r.Some? ==> forall k :: start <= k < r.value ==> !IdEndsWith(page[k], suffix)
    ensures r.None? ==> forall k :: start <= k < |page| ==> !IdEndsWith(page[k], suffix)
    decreases |page| - start
  {
    if start == |page| then None
    else if IdEndsWith(page[start], suffix) then Some(start)
    else FindDivFrom(page, suffix, start + 1)
  }

  function FindDiv(page: DetailPage, suffix: string): Option<nat> {
    FindDivFrom(page, suffix, 0)
  }

  /** The page has a div whose id ends with `suffix`. */
  ghost predicate HasDiv(page: DetailPage, suffix: string) {
    exists i :: 0 <= i < |page| && IdEndsWith(page[i], suffix)
  }

  /** Div `i` is the first whose id ends with `suffix`. */
  ghost predicate FirstDiv(page: DetailPage, suffix: string, i: int) {
    0 <= i < |page| && IdEndsWith(page[i], suffix) && forall k :: 0 <= k < i ==> !IdEndsWith(page[k], suffix)
  }

  /** The section title: the stripped `<h2>` of the first header div, or
      "Thématique {id}" when there is no header div; a header div without
      `<h2>` is the one failure. */
  function SectionTitle(page: DetailPage, id: int): Result<string, Failure> {
    match FindDiv(page, HeaderSuffix(id))
    case None => Ok("Thématique " + IntToString(id))
    case Some(i) => if page[i].heading.None? then Err(MissingHeading(id)) else Ok(Strip(page[i].heading.value))
  }

  /** Without a header div the title is the generic one; the title fails,
      naming its id, exactly when the first header div has no `<h2>`;
      otherwise it is the stripped heading of that first div. */
  lemma SectionTitleCases(page: DetailPage, id: int)
    ensures !HasDiv(page, HeaderSuffix(id)) ==> SectionTitle(page, id) == Ok("Thématique " + IntToString(id))
    ensures SectionTitle(page, id).Err? ==> SectionTitle(page, id).error == MissingHeading(id)
    ensures SectionTitle(page, id).Err? <==> exists i :: FirstDiv(page, HeaderSuffix(id), i) && page[i].heading.None?
    ensures forall i :: FirstDiv(page, HeaderSuffix(id), i) && page[i].heading.Some? ==>
      SectionTitle(page, id) == Ok(Strip(page[i].heading.value))
  {
    var f := FindDiv(page, HeaderSuffix(id));
    if f.Some? {
      assert FirstDiv(page, HeaderSuffix(id), f.value);
      forall i | FirstDiv(page, HeaderSuffix(id), i) ensures i == f.value {
      }
    }
  }

  /** One row's record: a row without label span is skipped (the caught
      AttributeError); a missing score or note becomes "N/A". */
  function RowRecord(key: string, title: string, id: int, row: CriterionRow): (r: Option<CriterionRecord>)
    ensures r.None? <==> row.labelSpan.None?
    ensures r.Some? ==> r.value.school == key && r.value.title == title && r.value.themeId == id
    ensures r.Some? ==> r.value.criterion == TextOf(row.labelSpan.value)
    ensures r.Some? ==> r.value.score == if row.score.Some? then TextOf(row.score.value) else MISSING
    ensures r.Some? ==> r.value.note == if row.note.Some? then TextOf(row.note.value) else MISSING
  {
    match row.labelSpan
    case None => None
    case Some(texts) =>
      var score := if row.score.Some? then TextOf(row.score.value) else MISSING;
      var note := if row.note.Some? then TextOf(row.note.value) else MISSING;
      Some(CriterionRecord(key, title, id, TextOf(texts), score, note))
  }

  /** Each text node is stripped before the nodes are joined: a score div
      holding " 7,5 " and then a span "/10" gives "7,5/10". */
  lemma ScoreJoinsTextNodes(key: string, title: string, id: int, labelTexts: seq<string>)
    ensures RowRecord(key, title, id, CriterionRow(Some(labelTexts), Some([" 7,5 ", "/10"]), None)).value.score == "7,5/10"
  {
    assert " 7,5 "[1..] == "7,5 " && StripLeft(" 7,5 ") == "7,5 ";
    assert "7,5 "[..3] == "7,5" && StripRight("7,5 ") == "7,5";
    assert StripLeft("/10") == "/10" && StripRight("/10") == "/10";
    TextOfSingle(" 7,5 ");
    TextOfAppend([" 7,5 "], "/10");
    assert [" 7,5 "] + ["/10"] == [" 7,5 ", "/10"];
  }

  function RowRecords(key: string, title: string, id: int, row: CriterionRow): seq<CriterionRecord> {
    match RowRecord(key, title, id, row) case Some(r) => [r] case None => []
  }

  /** The records of one criteria div, row by row. */
  function ThemeRecords(key: string, title: string, id: int, rows: seq<CriterionRow>): seq<CriterionRecord> {
    FlatMap(row => RowRecords(key, title, id, row), rows)
  }

  /** Every record of a criteria div carries the school, the section
      title and the thematic id, and comes from one of its labelled rows. */
  lemma ThemeRecordsTagged(key: string, title: string, id: int, rows: seq<CriterionRow>)
    ensures forall r :: r in ThemeRecords(key, title, id, rows) ==> r.school == key && r.title == title && r.themeId == id
    ensures forall r :: r in ThemeRecords(key, title, id, rows) ==>
      exists i :: 0 <= i < |rows| && RowRecord(key, title, id, rows[i]) == Some(r)
  {
    var f := row => RowRecords(key, title, id, row);
    forall r | r in ThemeRecords(key, title, id, rows)
      ensures r.school == key && r.title == title && r.themeId == id
      ensures exists i :: 0 <= i < |rows| && RowRecord(key, title, id, rows[i]) == Some(r)
    {
      FlatMapMembers(f, rows, r);
      var i :| 0 <= i < |rows| && r in f(rows[i]);
    }
  }

  /** A skipped row does not stop its siblings: the records of two runs of
      rows are the records of each, in order. */
  lemma ThemeRecordsSplit(key: string, title: string, id: int, xs: seq<CriterionRow>, ys: seq<CriterionRow>)
    ensures ThemeRecords(key, title, id, xs + ys) == ThemeRecords(key, title, id, xs) + ThemeRecords(key, title, id, ys)
  {
    FlatMapSplit(row => RowRecords(key, title, id, row), xs, ys);
  }

  /** One more row of the loop appends that row's records. */
  lemma ThemeRecordsStep(key: string, title: string, id: int, rows: seq<CriterionRow>, j: nat)
    requires j < |rows|
    ensures ThemeRecords(key, title, id, rows[..j + 1]) == ThemeRecords(key, title, id, rows[..j]) + RowRecords(key, title, id, rows[j])
  {
    assert rows[..j + 1] == rows[..j] + [rows[j]];
    FlatMapAppend(row => RowRecords(key, title, id, row), rows[..j], rows[j]);
  }

  /** No row gives more than one record, and every labelled row exactly one. */
  lemma ThemeRecordsCount(key: string, title: string, id: int, rows: seq<CriterionRow>)
    ensures |ThemeRecords(key, title, id, rows)| <= |rows|
    ensures (forall i :: 0 <= i < |rows| ==> rows[i].labelSpan.Some?) ==> |ThemeRecords(key, title, id, rows)| == |rows|
  {
    var f := row => RowRecords(key, title, id, row);
    forall row ensures |f(row)| <= 1 {
    }
    FlatMapLength(f, rows);
    if forall i :: 0 <= i < |rows| ==> rows[i].labelSpan.Some? {
      forall i | 0 <= i < |rows| ensures |f(rows[i])| == 1 {
      }
    }
  }

  /** What one thematic id contributes to the page: the failure of its
      title, no criteria div, or the records of its criteria div. */
  datatype ThemeOutcome = Failed(failure: Failure) | Absent | Found(records: seq<CriterionRecord>)

  /** One iteration of the loop over the thematic ids, on its own. */
  function ThemeOf(key: string, page: DetailPage, id: int): ThemeOutcome {
    match SectionTitle(page, id)
    case Err(e) => Failed(e)
    case Ok(title) =>
      match FindDiv(page, CriteriaSuffix(id))
      case None => Absent
      case Some(i) => Found(ThemeRecords(key, title, id, page[i].rows))
  }

  /** An id fails exactly when its title does; otherwise it contributes
      records exactly when the page has its criteria div, and those
      records carry the school and the id. */
  lemma ThemeOfCases(key: string, page: DetailPage, id: int)
    ensures ThemeOf(key, page, id).Failed? <==> SectionTitle(page, id).Err?
    ensures ThemeOf(key, page, id).Failed? ==> ThemeOf(key, page, id).failure == MissingHeading(id)
    ensures !ThemeOf(key, page, id).Failed? ==> (ThemeOf(key, page, id).Found? <==> HasDiv(page, CriteriaSuffix(id)))
    ensures ThemeOf(key, page, id).Found? ==>
      forall r :: r in ThemeOf(key, page, id).records ==> r.school == key && r.themeId == id
  {
    var f := FindDiv(page, CriteriaSuffix(id));
    if f.Some? {
      assert IdEndsWith(page[f.value], CriteriaSuffix(id));
      if SectionTitle(page, id).Ok? {
        ThemeRecordsTagged(key, SectionTitle(page, id).value, id, page[f.value].rows);
      }
    }
  }

  /** The state of the loop over the thematic ids: the records appended
      so far, whether some criteria div was found (the `success` flag),
      and the failure that stopped it, if any. */
  datatype Attempt = Attempt(records: seq<CriterionRecord>, found: bool, failure: Option<Failure>)

  function ThemeStep(a: Attempt, o: ThemeOutcome): Attempt {
    if a.failure.Some? then a
    else
      match o
      case Failed(e) => Attempt(a.records, a.found, Some(e))
      case Absent => a
      case Found(rs) => Attempt(a.records + rs, true, None)
  }

  /** The loop over the outcomes of the ids, in order. */
  function AttemptOver(os: seq<ThemeOutcome>): Attempt {
    if os == [] then Attempt([], false, None) else ThemeStep(AttemptOver(os[..|os| - 1]), os[|os| - 1])
  }

  /** The outcomes of the ids, in order. */
  function Outcomes(key: string, page: DetailPage, ids: seq<int>): (os: seq<ThemeOutcome>)
    ensures |os| == |ids|
  {
    Map(id => ThemeOf(key, page, id), ids)
  }

  lemma OutcomesAt(key: string, page: DetailPage, ids: seq<int>, k: nat)
    requires k < |ids|
    ensures Outcomes(key, page, ids)[k] == ThemeOf(key, page, ids[k])
    ensures Outcomes(key, page, ids[..k + 1]) == Outcomes(key, page, ids)[..k + 1]
  {
    MapAt(id => ThemeOf(key, page, id), ids, k);
    MapPrefix(id => ThemeOf(key, page, id), ids, k + 1);
  }

  /** The loop over the ids, one id further. */
  lemma OutcomesStep(key: string, page: DetailPage, ids: seq<int>, t: nat)
    requires t < |ids|
    ensures AttemptOver(Outcomes(key, page, ids[..t + 1]))
      == ThemeStep(AttemptOver(Outcomes(key, page, ids[..t])), ThemeOf(key, page, ids[t]))
  {
    MapStep(id => ThemeOf(key, page, id), ids, t);
    AttemptAppend(Outcomes(key, page, ids[..t]), ThemeOf(key, page, ids[t]));
  }

  /** Scraping one rendered page with the thematic ids `ids`. */
  function PageAttempt(key: string, page: DetailPage, ids: seq<int>): Attempt {
    AttemptOver(Outcomes(key, page, ids))
  }

  /** The records an outcome adds when nothing failed before it. */
  function Contributed(o: ThemeOutcome): seq<CriterionRecord> {
    if o.Found? then o.records else []
  }

  /** Outcome `k` is the first failing one. */
  ghost predicate FirstFailure(os: seq<ThemeOutcome>, k: int) {
    0 <= k < |os| && os[k].Failed? && forall j :: 0 <= j < k ==> !os[j].Failed?
  }

  /** The loop fails exactly when some outcome does, with the failure of
      the first one. */
  lemma {:induction false} AttemptFailure(os: seq<ThemeOutcome>)
    ensures AttemptOver(os).failure.Some? <==> exists k :: 0 <= k < |os| && os[k].Failed?
    ensures AttemptOver(os).failure.Some? ==>
      exists k :: FirstFailure(os, k) && AttemptOver(os).failure.value == os[k].failure
  {
    if os != [] {
      var n := |os| - 1;
      var init := os[..n];
      AttemptFailure(init);
      assert forall j :: 0 <= j < n ==> init[j] == os[j];
      if AttemptOver(init).failure.Some? {
        var k :| FirstFailure(init, k) && AttemptOver(init).failure.value == init[k].failure;
        assert FirstFailure(os, k);
      } else if os[n].Failed? {
        assert FirstFailure(os, n);
      }
    }
  }

  /** One more outcome is one more step of the loop. */
  lemma AttemptAppend(os: seq<ThemeOutcome>, o: ThemeOutcome)
    ensures AttemptOver(os + [o]) == ThemeStep(AttemptOver(os), o)
  {
    assert (os + [o])[..|os|] == os;
  }

  /** A step before any failure adds the outcome's contribution and
      records whether it found a div or failed. */
  lemma StepContributes(a: Attempt, o: ThemeOutcome)
    requires a.failure.None?
    ensures ThemeStep(a, o).records == a.records + Contributed(o)
    ensures ThemeStep(a, o).found == (a.found || o.Found?)
    ensures ThemeStep(a, o).failure == if o.Failed? then Some(o.failure) else None
  {
  }

  /** After a failure the remaining outcomes change nothing: the loop
      ends at the exception. */
  lemma {:induction false} AttemptStopped(os: seq<ThemeOutcome>, t: nat)
    requires t <= |os| && AttemptOver(os[..t]).failure.Some?
    ensures AttemptOver(os) == AttemptOver(os[..t])
  {
    if t < |os| {
      var init := os[..|os| - 1];
      assert init[..t] == os[..t];
      AttemptStopped(init, t);
    } else {
      assert os[..t] == os;
    }
  }

  /** Without failure the records are the contributions of all the
      outcomes, in order. */
  lemma {:induction false} AttemptRecords(os: seq<ThemeOutcome>)
    ensures AttemptOver(os).failure.None? ==> AttemptOver(os).records == FlatMap(Contributed, os)
  {
    if os != [] {
      var n := |os| - 1;
      var init := os[..n];
      AttemptRecords(init);
      assert os == init + [os[n]];
      FlatMapAppend(Contributed, init, os[n]);
    }
  }

  /** After a failure the records are the contributions of the outcomes
      before the first failing one, in order. */
  lemma AttemptRecordsToFailure(os: seq<ThemeOutcome>, k: nat)
    requires FirstFailure(os, k)
    ensures AttemptOver(os).records == FlatMap(Contributed, os[..k])
  {
    var pre := os[..k];
    assert os[..k + 1] == pre + [os[k]];
    AttemptAppend(pre, os[k]);
    AttemptFailure(pre);
    assert forall j :: 0 <= j < k ==> pre[j] == os[j];
    AttemptRecords(pre);
    AttemptStopped(os, k + 1);
  }

  /** Without failure, `success` holds exactly when some outcome found a
      criteria div, even one without rows. */
  lemma {:induction false} AttemptFound(os: seq<ThemeOutcome>)
    ensures AttemptOver(os).failure.None? ==> (AttemptOver(os).found <==> exists k :: 0 <= k < |os| && os[k].Found?)
    ensures !AttemptOver(os).found ==> AttemptOver(os).records == []
  {
    if os != [] {
      var n := |os| - 1;
      var init := os[..n];
      AttemptFound(init);
      assert forall j :: 0 <= j < n ==> init[j] == os[j];
      if AttemptOver(os).failure.None? {
        assert AttemptOver(init).failure.None?;
        if os[n].Found? {
          assert AttemptOver(os).found;
        }
      }
    }
  }

  /** Every record comes from an outcome that found a criteria div. */
  lemma {:induction false} AttemptRecordsFrom(os: seq<ThemeOutcome>)
    ensures forall r :: r in AttemptOver(os).records ==>
      exists k :: 0 <= k < |os| && os[k].Found? && r in os[k].records
  {
    if os != [] {
      var n := |os| - 1;
      var init := os[..n];
      var prev := AttemptOver(init);
      AttemptRecordsFrom(init);
      forall r | r in AttemptOver(os).records
        ensures exists k :: 0 <= k < |os| && os[k].Found? && r in os[k].records
      {
        if r in prev.records {
          var k :| 0 <= k < n && init[k].Found? && r in init[k].records;
          assert os[k] == init[k];
        } else {
          assert os[n].Found? && r in os[n].records;
        }
      }
    }
  }

  /** No record whose id is a later tag precedes one whose id is an
      earlier tag. */
  ghost predicate InTagOrder(rs: seq<CriterionRecord>, tags: seq<int>) {
    forall i, j, a, b :: 0 <= i < j < |rs| && 0 <= a < b < |tags| && rs[i].themeId == tags[b] ==> rs[j].themeId != tags[a]
  }

  /** When the records of each outcome carry its tag and the tags are
      distinct, no record of a later tag precedes one of an earlier tag. */
  lemma {:induction false} AttemptInOrder(os: seq<ThemeOutcome>, tags: seq<int>)
    requires |tags| == |os| && Distinct(tags)
    requires forall k, r :: 0 <= k < |os| && os[k].Found? && r in os[k].records ==> r.themeId == tags[k]
    ensures InTagOrder(AttemptOver(os).records, tags)
  {
    if os != [] {
      var n := |os| - 1;
      var init, initTags := os[..n], tags[..n];
      var prev := AttemptOver(init).records;
      var rs := AttemptOver(os).records;
      assert forall k :: 0 <= k < n ==> init[k] == os[k] && initTags[k] == tags[k];
      AttemptInOrder(init, initTags);
      AttemptRecordsFrom(init);
      var added := if AttemptOver(init).failure.None? && os[n].Found? then os[n].records else [];
      assert rs == prev + added;
      forall i | |prev| <= i < |rs| ensures rs[i].themeId == tags[n] {
        assert rs[i] == added[i - |prev|];
      }
      forall i | 0 <= i < |prev| ensures rs[i].themeId != tags[n] {
        assert rs[i] == prev[i] && prev[i] in prev;
        var k :| 0 <= k < n && init[k].Found? && prev[i] in init[k].records;
      }
      forall i, j, a, b | 0 <= i < j < |rs| && 0 <= a < b < |tags| && rs[i].themeId == tags[b]
        ensures rs[j].themeId != tags[a]
      {
        if j < |prev| {
          assert rs[i] == prev[i] && rs[j] == prev[j];
          assert b < n;
          assert initTags[a] == tags[a] && initTags[b] == tags[b];
          assert prev[i].themeId == initTags[b];
          assert prev[j].themeId != initTags[a];
        } else {
          assert rs[j].themeId == tags[n];
          assert tags[a] != tags[n];
        }
      }
    }
  }

  // The same facts, stated about the page and the configured ids.

  /** A loop that ran the ids in order, one outcome each, until it failed
      or ran out of ids, has scraped the page. */
  lemma PageFromOutcomes(key: string, page: DetailPage, ids: seq<int>, t: nat)
    requires t <= |ids|
    requires t == |ids| || AttemptOver(Outcomes(key, page, ids[..t])).failure.Some?
    ensures PageAttempt(key, page, ids) == AttemptOver(Outcomes(key, page, ids[..t]))
  {
    var os := Outcomes(key, page, ids);
    if t < |ids| {
      MapPrefix(id => ThemeOf(key, page, id), ids, t);
      AttemptStopped(os, t);
    } else {
      assert ids[..t] == ids;
    }
  }

  lemma PageFailsIff(key: string, page: DetailPage, ids: seq<int>)
    ensures PageAttempt(key, page, ids).failure.Some? <==> exists k :: 0 <= k < |ids| && SectionTitle(page, ids[k]).Err?
    ensures PageAttempt(key, page, ids).failure.Some? ==> exists k :: (0 <= k < |ids|
      && PageAttempt(key, page, ids).failure.value == MissingHeading(ids[k])
      && forall j :: 0 <= j < k ==> SectionTitle(page, ids[j]).Ok?)
  {
    var os := Outcomes(key, page, ids);
    AttemptFailure(os);
    forall k | 0 <= k < |ids| ensures os[k].Failed? <==> SectionTitle(page, ids[k]).Err? {
      OutcomesAt(key, page, ids, k);
      ThemeOfCases(key, page, ids[k]);
    }
    if PageAttempt(key, page, ids).failure.Some? {
      var k :| FirstFailure(os, k) && AttemptOver(os).failure.value == os[k].failure;
      OutcomesAt(key, page, ids, k);
      ThemeOfCases(key, page, ids[k]);
    }
  }

  /** Without failure, `success` holds exactly when one of the ids has a
      criteria div; a page that is not a success added no record. */
  lemma PageFoundIff(key: string, page: DetailPage, ids: seq<int>)
    ensures PageAttempt(key, page, ids).failure.None? ==>
      (PageAttempt(key, page, ids).found <==> exists k :: 0 <= k < |ids| && HasDiv(page, CriteriaSuffix(ids[k])))
    ensures !PageAttempt(key, page, ids).found ==> PageAttempt(key, page, ids).records == []
  {
    var os := Outcomes(key, page, ids);
    AttemptFound(os);
    AttemptFailure(os);
    if PageAttempt(key, page, ids).failure.None? {
      forall k | 0 <= k < |ids| ensures os[k].Found? <==> HasDiv(page, CriteriaSuffix(ids[k])) {
        OutcomesAt(key, page, ids, k);
        ThemeOfCases(key, page, ids[k]);
      }
    }
  }

  /** Every record of a page belongs to the school and to one of the ids. */
  lemma PageRecordsTagged(key: string, page: DetailPage, ids: seq<int>)
    ensures forall r :: r in PageAttempt(key, page, ids).records ==> r.school == key && r.themeId in ids
  {
    var os := Outcomes(key, page, ids);
    AttemptRecordsFrom(os);
    forall r | r in PageAttempt(key, page, ids).records ensures r.school == key && r.themeId in ids {
      var k :| 0 <= k < |os| && os[k].Found? && r in os[k].records;
      OutcomesAt(key, page, ids, k);
      ThemeOfCases(key, page, ids[k]);
    }
  }

  /** Themes come out in configured order: no record of a later id
      precedes a record of an earlier one. */
  lemma PageThemesInOrder(key: string, page: DetailPage, ids: seq<int>)
    requires Distinct(ids)
    ensures InTagOrder(PageAttempt(key, page, ids).records, ids)
  {
    var os := Outcomes(key, page, ids);
    assert PageAttempt(key, page, ids) == AttemptOver(os);
    forall k, r | 0 <= k < |os| && os[k].Found? && r in os[k].records ensures r.themeId == ids[k] {
      OutcomesAt(key, page, ids, k);
      ThemeOfCases(key, page, ids[k]);
    }
    AttemptInOrder(os, ids);
  }

  /** With the configured ids, themes come out in the order 425, 426, 427,
      429, 430, 431. */
  lemma ConfiguredThemesInOrder(key: string, page: DetailPage)
    ensures InTagOrder(PageAttempt(key, page, THEMATICS_IDS).records, THEMATICS_IDS)
  {
    var ids := THEMATICS_IDS;
    assert Distinct(ids) by {
      forall i, j | 0 <= i < j < |ids| ensures ids[i] < ids[j] {
        assert ids[i] < ids[i + 1] <= ids[j] by {
          assert forall k :: 0 <= k < |ids| - 1 ==> ids[k] < ids[k + 1];
        }
      }
    }
    PageThemesInOrder(key, page, ids);
  }

  /** One CSV line: the six fields in declared order. */
  function Cells(r: CriterionRecord): (cs: seq<string>)
    ensures |cs| == |COLUMNS|
  {
    [r.school, r.title, IntToString(r.themeId), r.criterion, r.score, r.note]
  }

  /** `csv.DictWriter` with the six fieldnames: header, then one line per
      record in append order. */
  function CriteriaCsv(data: seq<CriterionRecord>): (t: seq<seq<string>>)
    ensures |t| == |data| + 1 && t[0] == COLUMNS
    ensures forall i :: 0 <= i < |data| ==> t[i + 1] == Cells(data[i])
  {
    [COLUMNS] + seq(|data|, i requires 0 <= i < |data| => Cells(data[i]))
  }
}
