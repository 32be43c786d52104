/** Discovery of the per-school detail-page links on the paginated
    engineering-school ranking (data/scrapping_letudiant_liens_ranking.py).

    A ranking page is modelled as the sequence of its `<a>` elements in
    document order. Fetching is the parameter `fetch`, a function from URL
    to page. */
module Ranking {
  import opened Wrappers
  import opened Text
  import opened Seqs

  const BASE := "https://www.letudiant.fr"
  const RANKING := BASE + "/classements/classement-des-ecoles-d-ingenieurs.html"
  /** The visible label of the per-school button. */
  const BUTTON_LABEL := "Voir la fiche complète"
  /** `BUTTON_LABEL.lower()`. */
  const BUTTON_NEEDLE := "voir la fiche complète"
  /** `range(1, 10)`: the pages requested, always all of them. */
  const LAST_PAGE := 9
  const CSV_HEADER := ["name", "url"]

  /** An anchor: its text nodes in document order and its `href`, if any. */
  datatype Anchor = Anchor(texts: seq<string>, href: Option<string>)

  type Page = seq<Anchor>

  /** One line of liens_fiches_ecoles.csv. */
  datatype Row = Row(name: string, url: string)

  /** BeautifulSoup's `.string`: the text when the anchor has exactly one
      text node, else nothing. */
  function StringOf(a: Anchor): Option<string> {
    if |a.texts| == 1 then Some(a.texts[0]) else None
  }

  /** `find_all("a", href=True, string=lambda t: t and label.lower() in t.lower())`. */
  predicate IsButton(a: Anchor) {
    && a.href.Some?
    && StringOf(a).Some?
    && StringOf(a).value != ""
    && Contains(Lower(StringOf(a).value), BUTTON_NEEDLE)
  }

  /** The button test does not depend on letter case. */
  lemma IsButtonCaseInsensitive(a: Anchor)
    requires |a.texts| == 1
    ensures IsButton(a) <==> IsButton(Anchor([Lower(a.texts[0])], a.href))
  {
    LowerIdempotent(a.texts[0]);
  }

  /** `re.compile(re.escape(h))` searched in the href: a literal substring. */
  predicate HrefMatches(a: Anchor, h: string) {
    a.href.Some? && Contains(a.href.value, h)
  }

  /** `find_previous("a", href=...)` from position `i`: the nearest
      earlier anchor whose href contains `h`. */
  function NearestPrevious(page: Page, i: nat, h: string): (r: Option<nat>)
    requires i <= |page|
    ensures r.Some? ==> r.value < i
  {
    if i == 0 then None
    else if HrefMatches(page[i - 1], h) then Some(i - 1)
    else NearestPrevious(page, i - 1, h)
  }

  /** The anchor found matches and none between it and `i` does; when none
      is found, no earlier anchor matches. */
  lemma {:induction false} NearestPreviousSpec(page: Page, i: nat, h: string)
    requires i <= |page|
    ensures NearestPrevious(page, i, h).Some? ==> HrefMatches(page[NearestPrevious(page, i, h).value], h)
    ensures NearestPrevious(page, i, h).Some? ==>
      forall k :: NearestPrevious(page, i, h).value < k < i ==> !HrefMatches(page[k], h)
    ensures NearestPrevious(page, i, h).None? ==> forall k :: 0 <= k < i ==> !HrefMatches(page[k], h)
  {
    if i > 0 && !HrefMatches(page[i - 1], h) {
      NearestPreviousSpec(page, i - 1, h);
    }
  }

  /** The non-empty stripped text nodes. */
  function StrippedTexts(texts: seq<string>): seq<string> {
    if texts == [] then []
    else
      var t := Strip(texts[|texts| - 1]);
      StrippedTexts(texts[..|texts| - 1]) + (if t == "" then [] else [t])
  }

  function JoinWithSpace(words: seq<string>): string {
    if words == [] then ""
    else if |words| == 1 then words[0]
    else JoinWithSpace(words[..|words| - 1]) + " " + words[|words| - 1]
  }

  /** `get_text(" ", strip=True)`. */
  function Name(a: Anchor): string {
    JoinWithSpace(StrippedTexts(a.texts))
  }

  predicate HasScheme(ref: string) {
    StartsWith(ref, "http://") || StartsWith(ref, "https://")
  }

  /** `urljoin(BASE, ref)` for the reference shapes met on the site:
      absolute, network-path, absolute-path, query- or fragment-only, and
      relative to the empty base path. */
  function Join(ref: string): string {
    if ref == "" then BASE
    else if HasScheme(ref) then ref
    else if StartsWith(ref, "//") then "https:" + ref
    else if ref[0] == '/' || ref[0] == '?' || ref[0] == '#' then BASE + ref
    else BASE + "/" + ref
  }

  /** `urldefrag(urljoin(BASE, href)).url`. */
  function ButtonUrl(href: string): (u: string)
    ensures '#' !in u
  {
    Defrag(Join(href))
  }

  /** A link of the site given by absolute path keeps that path. */
  lemma ButtonUrlOfPath(path: string)
    requires |path| > 0 && path[0] == '/' && !StartsWith(path, "//") && '#' !in path
    ensures ButtonUrl(path) == BASE + path
  {
    assert !HasScheme(path) by {
      assert path[0] != 'h';
    }
    assert Join(path) == BASE + path;
    assert '#' !in BASE;
    assert '#' !in BASE + path;
    DefragIdempotent(BASE + path);
  }

  /** The row the anchor at `i` contributes: only a button does, and only
      when an earlier anchor's href contains the button's href; that
      anchor's text is the school name. */
  function RowAt(page: Page, i: nat): (r: Option<Row>)
    requires i < |page|
    ensures r.Some? ==> IsButton(page[i]) && r.value.url == ButtonUrl(page[i].href.value)
  {
    if !IsButton(page[i]) then None
    else
      var h := page[i].href.value;
      match NearestPrevious(page, i, h)
      case None => None
      case Some(j) => Some(Row(Name(page[j]), ButtonUrl(h)))
  }

  /** The school name of a row is the text of the nearest earlier anchor
      whose href contains the button's href. */
  lemma RowAtNamed(page: Page, i: nat)
    requires i < |page| && RowAt(page, i).Some?
    ensures exists j :: (0 <= j < i && HrefMatches(page[j], page[i].href.value)
      && (forall k :: j < k < i ==> !HrefMatches(page[k], page[i].href.value))
      && RowAt(page, i).value.name == Name(page[j]))
  {
    var h := page[i].href.value;
    NearestPreviousSpec(page, i, h);
    var j := NearestPrevious(page, i, h).value;
    assert RowAt(page, i).value.name == Name(page[j]);
  }

  /** With one non-blank text node, the name is that node stripped. */
  lemma NameOfSingleText(t: string, href: Option<string>)
    requires Strip(t) != ""
    ensures Name(Anchor([t], href)) == Strip(t)
  {
    assert [t][..0] == [];
    assert StrippedTexts([t]) == [Strip(t)];
  }

  /** A button is skipped exactly when no earlier anchor names it. */
  lemma RowAtSkipsUnnamedButton(page: Page, i: nat)
    requires i < |page| && IsButton(page[i])
    ensures RowAt(page, i).None? <==>
      forall k :: 0 <= k < i ==> !HrefMatches(page[k], page[i].href.value)
  {
    var h := page[i].href.value;
    NearestPreviousSpec(page, i, h);
    if RowAt(page, i).None? {
      assert NearestPrevious(page, i, h).None?;
    }
  }

  /** The zero or one row of the anchor at `i`; nothing past the end. */
  function RowsAt(page: Page, i: nat): seq<Row> {
    if i < |page| then (match RowAt(page, i) case Some(r) => [r] case None => []) else []
  }

  /** The rows of the first `n` anchors, in document order. */
  function RowsUpTo(page: Page, n: nat): seq<Row>
    requires n <= |page|
  {
    Gather((i: nat) => RowsAt(page, i), n)
  }

  /** One more anchor adds its zero or one row at the end. */
  lemma RowsUpToStep(page: Page, n: nat)
    requires n < |page|
    ensures RowsUpTo(page, n + 1) == RowsUpTo(page, n) + RowsAt(page, n)
  {
    GatherAppend((i: nat) => RowsAt(page, i), n);
  }

  function Rows(page: Page): seq<Row> {
    RowsUpTo(page, |page|)
  }

  /** The body of `extract_rows`' loop for the anchor at `i`: a button
      with an earlier anchor naming it gives one row, anything else none. */
  method ButtonRow(page: Page, i: nat) returns (rs: seq<Row>)
    requires i < |page|
    ensures rs == RowsAt(page, i)
  {
    rs := [];
    var btn := page[i];
    if IsButton(btn) {
      var url := ButtonUrl(btn.href.value);
      var nameA := NearestPrevious(page, i, btn.href.value);
      if nameA.Some? {
        var school := Name(page[nameA.value]);
        rs := [Row(school, url)];
      }
    }
  }

  /** `extract_rows`: one pass over the anchors, appending a row per named
      button. */
  method ExtractRows(page: Page) returns (rows: seq<Row>)
    ensures rows == Rows(page)
  {
    rows := [];
    var i := 0;
    while i < |page|
      invariant 0 <= i <= |page|
      invariant rows == RowsUpTo(page, i)
    {
      var rs := ButtonRow(page, i);
      RowsUpToStep(page, i);
      rows := rows + rs;
      i := i + 1;
    }
  }

  lemma RowsAtMember(page: Page, i: nat, r: Row)
    requires i < |page|
    ensures r in RowsAt(page, i) <==> RowAt(page, i) == Some(r)
  {
  }

  /** A row is produced for exactly the anchors that yield one. */
  lemma RowsUpToMembers(page: Page, n: nat, r: Row)
    requires n <= |page|
    ensures r in RowsUpTo(page, n) <==> exists i :: 0 <= i < n && RowAt(page, i) == Some(r)
  {
    var f := (i: nat) => RowsAt(page, i);
    GatherMembers(f, n, r);
    if r in RowsUpTo(page, n) {
      var i :| 0 <= i < n && r in f(i);
      RowsAtMember(page, i, r);
    }
    if exists i :: 0 <= i < n && RowAt(page, i) == Some(r) {
      var i :| 0 <= i < n && RowAt(page, i) == Some(r);
      RowsAtMember(page, i, r);
      assert r in f(i);
    }
  }

  /** Rows are only ever appended: the rows of a shorter prefix of the page
      come first, in the same order. */
  lemma RowsUpToPrefix(page: Page, m: nat, n: nat)
    requires m <= n <= |page|
    ensures RowsUpTo(page, m) <= RowsUpTo(page, n)
  {
    GatherPrefix((i: nat) => RowsAt(page, i), m, n);
  }

  /** Number of buttons among the first `n` anchors. */
  function ButtonCount(page: Page, n: nat): nat
    requires n <= |page|
  {
    Count((i: nat) => i < |page| && IsButton(page[i]), n)
  }

  /** A row needs a button. */
  lemma RowsAtCount(page: Page, i: nat)
    requires i < |page|
    ensures |RowsAt(page, i)| == (if RowAt(page, i).Some? then 1 else 0)
    ensures RowAt(page, i).Some? ==> IsButton(page[i])
  {
  }

  /** At most one row per button. */
  lemma RowsPerButton(page: Page, n: nat)
    requires n <= |page|
    ensures |RowsUpTo(page, n)| <= ButtonCount(page, n)
  {
    var p := (i: nat) => i < |page| && IsButton(page[i]);
    forall i | 0 <= i < n ensures |RowsAt(page, i)| <= (if p(i) then 1 else 0) {
      RowsAtCount(page, i);
    }
    GatherCount((i: nat) => RowsAt(page, i), p, n);
  }

  /** Exactly one row per button when every button is named. */
  lemma RowsPerNamedButton(page: Page, n: nat)
    requires n <= |page|
    requires forall i :: 0 <= i < n && IsButton(page[i]) ==> RowAt(page, i).Some?
    ensures |RowsUpTo(page, n)| == ButtonCount(page, n)
  {
    var p := (i: nat) => i < |page| && IsButton(page[i]);
    forall i | 0 <= i < n ensures |RowsAt(page, i)| == (if p(i) then 1 else 0) {
      RowsAtCount(page, i);
    }
    GatherCount((i: nat) => RowsAt(page, i), p, n);
  }

  /** No emitted URL carries a fragment. */
  lemma RowsHaveNoFragment(page: Page)
    ensures forall r :: r in Rows(page) ==> '#' !in r.url
  {
    forall r | r in Rows(page) ensures '#' !in r.url {
      RowsUpToMembers(page, |page|, r);
    }
  }

  // ---------------------------------------------------------------------
  // extract_ranking_page

  /** `RANKING if page == 1 else f"{RANKING}?page={page}"`. */
  function PageUrl(p: nat): string {
    if p == 1 then RANKING else RANKING + "?page=" + NatToString(p)
  }

  /** Pages 1 to 9 are requested at nine different URLs. */
  lemma PageUrlsDistinct(p: nat, q: nat)
    requires 1 <= p <= LAST_PAGE && 1 <= q <= LAST_PAGE && p != q
    ensures PageUrl(p) != PageUrl(q)
  {
    if p != 1 && q != 1 && PageUrl(p) == PageUrl(q) {
      var pre := RANKING + "?page=";
      assert PageUrl(p)[|pre|..] == NatToString(p);
      assert PageUrl(q)[|pre|..] == NatToString(q);
      NatToStringInjective(p, q);
    }
  }

  /** The URLs of pages 1 to `k`, in order. */
  function PageUrls(k: nat): (us: seq<string>)
    ensures |us| == k
  {
    Tabulate(PageUrl, k)
  }

  /** The `i`-th request is for page `i + 1`, and no URL is requested twice. */
  lemma PageUrlsAt(k: nat, i: nat)
    requires i < k <= LAST_PAGE
    ensures PageUrls(k)[i] == PageUrl(i + 1)
    ensures forall j :: 0 <= j < k && j != i ==> PageUrls(k)[j] != PageUrls(k)[i]
  {
    TabulateAt(PageUrl, k, i);
    forall j | 0 <= j < k && j != i ensures PageUrls(k)[j] != PageUrls(k)[i] {
      TabulateAt(PageUrl, k, j);
      PageUrlsDistinct(j + 1, i + 1);
    }
  }

  /** The rows of each of pages 1 to `k`, in page order. */
  function PageRows(fetch: string -> Page, k: nat): (rs: seq<seq<Row>>)
    ensures |rs| == k
  {
    Tabulate((p: nat) => Rows(fetch(PageUrl(p))), k)
  }

  lemma PageRowsAt(fetch: string -> Page, k: nat, i: nat)
    requires i < k
    ensures PageRows(fetch, k)[i] == Rows(fetch(PageUrl(i + 1)))
    ensures PageRows(fetch, k)[..i] == PageRows(fetch, i)
  {
    TabulateAt((p: nat) => Rows(fetch(PageUrl(p))), k, i);
  }

  /** Nothing is de-duplicated or dropped: page `p`'s rows sit, unchanged,
      right after the rows of pages 1 to `p - 1`, so the result is as long
      as the per-page counts add up to (`SumLengths`, `ConcatLength`). */
  lemma PageRowsInPlace(fetch: string -> Page, p: nat)
    requires 1 <= p <= LAST_PAGE
    ensures SumLengths(PageRows(fetch, p)) <= |Concat(PageRows(fetch, LAST_PAGE))|
    ensures Concat(PageRows(fetch, LAST_PAGE))[SumLengths(PageRows(fetch, p - 1))..SumLengths(PageRows(fetch, p))]
      == Rows(fetch(PageUrl(p)))
  {
    var all := PageRows(fetch, LAST_PAGE);
    PageRowsAt(fetch, LAST_PAGE, p - 1);
    if p < LAST_PAGE {
      PageRowsAt(fetch, LAST_PAGE, p);
    } else {
      assert all[..p] == all;
    }
    ConcatSlice(all, p - 1);
  }

  /** The table `csv.writer` writes: header, then one line per row. */
  function RankingCsv(rows: seq<Row>): (t: seq<seq<string>>)
    ensures |t| == |rows| + 1 && t[0] == CSV_HEADER
  {
    [CSV_HEADER] + seq(|rows|, i requires 0 <= i < |rows| => [rows[i].name, rows[i].url])
  }

  /** Reading the written table back (skipping the header) gives the rows. */
  function RowsFromCsv(t: seq<seq<string>>): seq<Row> {
    if |t| <= 1 then []
    else
      var line := t[|t| - 1];
      RowsFromCsv(t[..|t| - 1]) + [if |line| >= 2 then Row(line[0], line[1]) else Row("", "")]
  }

  lemma {:induction false} RankingCsvRoundTrip(rows: seq<Row>)
    ensures RowsFromCsv(RankingCsv(rows)) == rows
  {
    if rows != [] {
      var init := rows[..|rows| - 1];
      RankingCsvRoundTrip(init);
      assert RankingCsv(rows)[..|rows|] == RankingCsv(init);
      assert init + [rows[|rows| - 1]] == rows;
    }
  }

  /** `extract_ranking_page`: pages 1 to 9 are all fetched whatever they
      hold, their rows concatenated, and the CSV table is the header
      followed by exactly those rows. */
  method ExtractRankingPage(fetch: string -> Page)
    returns (allRows: seq<Row>, requested: seq<string>, csv: seq<seq<string>>)
    ensures requested == PageUrls(LAST_PAGE)
    ensures allRows == Concat(PageRows(fetch, LAST_PAGE))
    ensures csv == RankingCsv(allRows)
  {
    allRows, requested := [], [];
    for page := 1 to LAST_PAGE + 1
      invariant requested == PageUrls(page - 1)
      invariant allRows == Concat(PageRows(fetch, page - 1))
    {
      var url := if page == 1 then RANKING else RANKING + "?page=" + NatToString(page);
      assert url == PageUrl(page);
      var html := fetch(url);
      var pageRows := ExtractRows(html);
      ConcatAppend(PageRows(fetch, page - 1), pageRows);
      allRows := allRows + pageRows;
      requested := requested + [url];
    }
    csv := RankingCsv(allRows);
  }
}
