/** The review crawler shared by data/scrapper.py and scrapper.py: the
    fields taken from one review card, the `?page=N#avis-authentifies`
    pagination of one school, and the loop over the schools.

    A review page is modelled as the sequence of its review cards; the
    HTTP client is the parameter `fetch`, a function from URL to the cards
    of that page. An element is the sequence of its text nodes. */
module Reviews {
  import opened Wrappers
  import opened Text
  import opened Seqs
  import opened Tables

  /** The fixed words between the author and the date. */
  const PUBLISHED := "a publié un avis le"
  const REVIEWS_ANCHOR := "#avis-authentifies"
  /** A full page holds 20 cards; a shorter one is the last. */
  const PAGE_SIZE := 20
  /** The keys of each record, in insertion order. */
  const REVIEW_COLUMNS: seq<string> := ["ecole", "auteur", "date", "note", "contenu", "url"]

  /** The six keys are distinct: each is a column of its own. */
  lemma ReviewColumnsDistinct()
    ensures Distinct(REVIEW_COLUMNS)
  {
    forall i, j | 0 <= i < j < |REVIEW_COLUMNS| ensures REVIEW_COLUMNS[i] != REVIEW_COLUMNS[j] {
      assert REVIEW_COLUMNS[i][0] != REVIEW_COLUMNS[j][0];
    }
  }

  /** The `p.tw-text-sans` paragraph: its text nodes and, when present,
      the text nodes of its `span.tw-font-medium`. */
  datatype AuthorLine = AuthorLine(texts: seq<string>, authorSpan: Option<seq<string>>)

  /** A review card: the author paragraph, the note span
      (`span.tw-text-primary.tw-font-heading`) and the content paragraph
      (`p.tw-break-words`), each possibly absent. */
  datatype Card = Card(authorLine: Option<AuthorLine>, noteSpan: Option<seq<string>>, content: Option<seq<string>>)

  /** One entry of `avis_list`. */
  datatype Review = Review(ecole: string, auteur: string, date: string, note: string, contenu: string, url: string)

  function Author(p: AuthorLine): string {
    match p.authorSpan
    case Some(span) => TextOf(span)
    case None => ""
  }

  /** `full_text.replace(auteur, "").replace("a publié un avis le", "").strip()`. */
  function DateOf(p: AuthorLine): string {
    Strip(RemoveAll(RemoveAll(TextOf(p.texts), Author(p)), PUBLISHED))
  }

  /** The note with its decimal comma turned into a point; "" without a
      note span. */
  function NoteOf(c: Card): string {
    match c.noteSpan
    case Some(span) => ReplaceChar(TextOf(span), ',', '.')
    case None => ""
  }

  /** `base_url.split("/")[-1].replace(".html", "").replace("-", " ").title()`. */
  function SchoolName(base: string): string {
    Title(ReplaceChar(RemoveAll(LastSegment(base), HTML), '-', ' '))
  }

  /** The record of one card of the school at `base`: a missing element
      gives "" for its fields and never fails. */
  function ReviewOf(base: string, c: Card): Review {
    var auteur := match c.authorLine case Some(p) => Author(p) case None => "";
    var date := match c.authorLine case Some(p) => DateOf(p) case None => "";
    var contenu := match c.content case Some(t) => TextOf(t) case None => "";
    Review(SchoolName(base), auteur, date, NoteOf(c), contenu, base)
  }

  /** Every record of a school carries the base URL, without page suffix,
      and the school name; no author paragraph gives an empty author and
      date, no author span an empty author, no content an empty content. */
  lemma ReviewOfFields(base: string, c: Card)
    ensures ReviewOf(base, c).url == base && ReviewOf(base, c).ecole == SchoolName(base)
    ensures c.authorLine.None? ==> ReviewOf(base, c).auteur == "" && ReviewOf(base, c).date == ""
    ensures c.authorLine.Some? && c.authorLine.value.authorSpan.None? ==> ReviewOf(base, c).auteur == ""
    ensures c.content.None? ==> ReviewOf(base, c).contenu == ""
    ensures c.noteSpan.None? ==> ReviewOf(base, c).note == ""
  {
  }

  /** The note keeps its length and every character except the commas,
      which become points. */
  lemma NoteNormalised(c: Card)
    requires c.noteSpan.Some?
    ensures |NoteOf(c)| == |TextOf(c.noteSpan.value)|
    ensures ',' !in NoteOf(c)
    ensures forall i :: 0 <= i < |NoteOf(c)| ==>
      NoteOf(c)[i] == if TextOf(c.noteSpan.value)[i] == ',' then '.' else TextOf(c.noteSpan.value)[i]
  {
    ReplaceCharRemoves(TextOf(c.noteSpan.value), ',', '.');
  }

  /** The date is trimmed: it neither starts nor ends with a space. */
  lemma DateTrimmed(p: AuthorLine)
    ensures DateOf(p) != [] ==> !IsSpace(DateOf(p)[0]) && !IsSpace(DateOf(p)[|DateOf(p)| - 1])
  {
    StripIsTrimmedSlice(RemoveAll(RemoveAll(TextOf(p.texts), Author(p)), PUBLISHED));
  }

  /** A paragraph that holds neither the author nor the fixed words gives
      its stripped text as the date. */
  lemma DateOfPlainText(p: AuthorLine)
    requires Author(p) == [] || !Contains(TextOf(p.texts), Author(p))
    requires !Contains(TextOf(p.texts), PUBLISHED)
    ensures DateOf(p) == Strip(TextOf(p.texts))
  {
  }

  /** The usual author paragraph: the author's name, the fixed words and
      the date. When neither the name nor the fixed words occur again, the
      date is the stripped remainder. */
  lemma DateOfTypicalCard(p: AuthorLine, d: string)
    requires TextOf(p.texts) == Author(p) + PUBLISHED + d
    requires Author(p) == [] || !Contains(PUBLISHED + d, Author(p))
    requires !Contains(d, PUBLISHED)
    ensures DateOf(p) == Strip(d)
  {
    var au := Author(p);
    var rest := PUBLISHED + d;
    var s := TextOf(p.texts);
    assert s == au + rest;
    if au != [] {
      RemoveAllPrefix(au, rest);
    }
    assert RemoveAll(s, au) == rest;
    RemoveAllPrefix(PUBLISHED, d);
  }

  /** The school name has no `/` and no `-`. */
  lemma SchoolNameShape(base: string)
    ensures '/' !in SchoolName(base) && '-' !in SchoolName(base)
  {
    var seg := LastSegment(base);
    var bare := RemoveAll(seg, HTML);
    var spaced := ReplaceChar(bare, '-', ' ');
    ReplaceCharRemoves(bare, '-', ' ');
    assert '/' !in spaced;
    TitleKeepsNonLetters(spaced, '/');
    TitleKeepsNonLetters(spaced, '-');
  }

  /** The school name depends only on the last path segment. */
  lemma SchoolNameOfSegment(prefix: string, seg: string)
    requires '/' !in seg
    ensures SchoolName(prefix + "/" + seg) == SchoolName(seg)
  {
    LastSegmentOfPath(prefix, seg);
    LastSegmentOfSegment(seg);
  }

  const HTML := ".html"

  /** ".html" cannot straddle the end of a segment that does not hold it:
      its only dot is its first character. */
  lemma HtmlOnlyAtEnd(seg: string)
    requires !Contains(seg, HTML)
    ensures forall j :: 0 <= j < |seg| ==> !OccursAt(seg + HTML + [], HTML, j)
  {
    var file := seg + HTML;
    assert seg + HTML + [] == file;
    assert forall i :: 1 <= i < |HTML| ==> HTML[i] != '.';
    ContainsIffOccurs(seg, HTML);
    forall j | 0 <= j < |seg| ensures !OccursAt(file, HTML, j) {
      if j + |HTML| <= |seg| {
        assert seg[j..j + |HTML|] == file[j..j + |HTML|];
        assert !OccursAt(seg, HTML, j);
      } else if j + |HTML| <= |file| {
        assert file[j..j + |HTML|][|seg| - j] == file[|seg|] == '.';
      }
    }
  }

  /** `replace(".html", "")` on `seg + ".html"` gives `seg` back. */
  lemma RemoveHtml(seg: string)
    requires !Contains(seg, HTML)
    ensures RemoveAll(seg + HTML, HTML) == seg
  {
    HtmlOnlyAtEnd(seg);
    RemoveAllStep(seg, HTML, []);
    assert seg + HTML + [] == seg + HTML;
    assert seg + [] == seg;
  }

  /** The name of a detail page `prefix/seg.html`: the segment without its
      ".html", each dash turned into a space, title-cased. */
  lemma SchoolNameOfHtml(prefix: string, seg: string)
    requires '/' !in seg && !Contains(seg, HTML)
    ensures SchoolName(prefix + "/" + seg + HTML) == Title(ReplaceChar(seg, '-', ' '))
  {
    var file := seg + HTML;
    var path := prefix + "/" + seg + HTML;
    assert '/' !in HTML;
    assert '/' !in file by {
      forall i | 0 <= i < |file| ensures file[i] != '/' {
        if i >= |seg| {
          assert file[i] == HTML[i - |seg|];
        }
      }
    }
    AppendAssoc(prefix + "/", seg, HTML);
    LastSegmentOfPath(prefix, file);
    assert LastSegment(path) == file;
    RemoveHtml(seg);
    assert RemoveAll(LastSegment(path), HTML) == seg;
  }

  // ---------------------------------------------------------------------
  // Pagination of one school

  /** `f"{base_url}?page={page}#avis-authentifies"`. */
  function ReviewPageUrl(base: string, n: nat): string {
    base + "?page=" + NatToString(n) + REVIEWS_ANCHOR
  }

  /** Different page numbers are different requests. */
  lemma ReviewPageUrlsDistinct(base: string, m: nat, n: nat)
    requires m != n
    ensures ReviewPageUrl(base, m) != ReviewPageUrl(base, n)
  {
    if ReviewPageUrl(base, m) == ReviewPageUrl(base, n) {
      var pre := base + "?page=";
      var sm, sn := NatToString(m), NatToString(n);
      assert |sm| == |sn|;
      assert ReviewPageUrl(base, m)[|pre|..|pre| + |sm|] == sm;
      assert ReviewPageUrl(base, n)[|pre|..|pre| + |sn|] == sn;
      NatToStringInjective(m, n);
    }
  }

  /** The cards the site shows for each page number of one school. */
  type Pages = nat -> seq<Card>

  /** The pages of the school at `base`: page `n` is what `fetch` returns
      for the URL of page `n`. */
  function SchoolPages(fetch: string -> seq<Card>, base: string): Pages {
    (n: nat) => fetch(ReviewPageUrl(base, n))
  }

  /** The records of a run of cards: one per card, in card order. */
  function CardReviews(base: string, cards: seq<Card>): (rs: seq<Review>)
    ensures |rs| == |cards|
  {
    Map(c => ReviewOf(base, c), cards)
  }

  lemma CardReviewsAt(base: string, cards: seq<Card>, k: nat)
    requires k < |cards|
    ensures CardReviews(base, cards)[k] == ReviewOf(base, cards[k])
  {
    MapAt(c => ReviewOf(base, c), cards, k);
  }

  /** Page `n` is the first page with fewer than 20 cards: the crawl of
      the school ends there. An empty page is such a page. */
  ghost predicate FirstShortPage(pages: Pages, n: nat) {
    && 1 <= n && |pages(n)| < PAGE_SIZE
    && forall p :: 1 <= p < n ==> |pages(p)| >= PAGE_SIZE
  }

  /** The crawl of the school ends: some page has fewer than 20 cards. */
  ghost predicate Ends(pages: Pages) {
    exists n :: 1 <= n && |pages(n)| < PAGE_SIZE
  }

  lemma FirstShortPageUnique(pages: Pages, m: nat, n: nat)
    requires FirstShortPage(pages, m) && FirstShortPage(pages, n)
    ensures m == n
  {
  }

  /** A short page at or before `n` exists, hence a first one. */
  lemma {:induction false} FirstShortPageExists(pages: Pages, n: nat)
    requires 1 <= n && |pages(n)| < PAGE_SIZE
    ensures exists m: nat :: m <= n && FirstShortPage(pages, m)
    decreases n
  {
    if !FirstShortPage(pages, n) {
      var p :| 1 <= p < n && |pages(p)| < PAGE_SIZE;
      FirstShortPageExists(pages, p);
    }
  }

  /** The number of pages the crawl of the school requests. */
  ghost function LastPage(pages: Pages): (n: nat)
    requires Ends(pages)
    ensures FirstShortPage(pages, n)
  {
    var k :| 1 <= k && |pages(k)| < PAGE_SIZE;
    FirstShortPageExists(pages, k);
    var n :| FirstShortPage(pages, n);
    n
  }

  /** The cards of pages 1 to `n`, in page order. */
  function PagesCards(pages: Pages, n: nat): seq<Card> {
    if n == 0 then [] else PagesCards(pages, n - 1) + pages(n)
  }

  /** Number of cards on pages 1 to `n`. */
  function CardCount(pages: Pages, n: nat): nat {
    if n == 0 then 0 else CardCount(pages, n - 1) + |pages(n)|
  }

  /** The records of pages 1 to `n`: one per card, in page and card order. */
  function PagesReviews(pages: Pages, base: string, n: nat): seq<Review> {
    CardReviews(base, PagesCards(pages, n))
  }

  lemma {:induction false} PagesCardsCount(pages: Pages, n: nat)
    ensures |PagesCards(pages, n)| == CardCount(pages, n)
  {
    if n > 0 {
      PagesCardsCount(pages, n - 1);
    }
  }

  /** The cards of the pages before page `p` and of page `p` itself are
      part of the count up to any later page. */
  lemma {:induction false} CardCountMonotone(pages: Pages, p: nat, n: nat)
    requires 1 <= p <= n
    ensures CardCount(pages, p - 1) + |pages(p)| <= CardCount(pages, n)
  {
    if p < n {
      CardCountMonotone(pages, p, n - 1);
    }
  }

  /** Card `k` of page `p` comes after the cards of the pages before it. */
  lemma {:induction false} PagesCardsAt(pages: Pages, n: nat, p: nat, k: nat)
    requires 1 <= p <= n && k < |pages(p)|
    ensures CardCount(pages, p - 1) + k < |PagesCards(pages, n)|
    ensures PagesCards(pages, n)[CardCount(pages, p - 1) + k] == pages(p)[k]
  {
    PagesCardsCount(pages, n);
    PagesCardsCount(pages, n - 1);
    CardCountMonotone(pages, p, n);
    if p < n {
      PagesCardsAt(pages, n - 1, p, k);
    }
  }

  /** Exactly one record per card. */
  lemma PagesReviewsCount(pages: Pages, base: string, n: nat)
    ensures |PagesReviews(pages, base, n)| == CardCount(pages, n)
  {
    PagesCardsCount(pages, n);
  }

  /** The record of card `k` of page `p` sits after the records of the
      pages before it. */
  lemma PagesReviewsAt(pages: Pages, base: string, n: nat, p: nat, k: nat)
    requires 1 <= p <= n && k < |pages(p)|
    ensures CardCount(pages, p - 1) + k < |PagesReviews(pages, base, n)|
    ensures PagesReviews(pages, base, n)[CardCount(pages, p - 1) + k] == ReviewOf(base, pages(p)[k])
  {
    PagesCardsAt(pages, n, p, k);
    CardReviewsAt(base, PagesCards(pages, n), CardCount(pages, p - 1) + k);
  }

  /** One more page appends its records. */
  lemma PagesReviewsStep(pages: Pages, base: string, n: nat)
    requires 1 <= n
    ensures PagesReviews(pages, base, n) == PagesReviews(pages, base, n - 1) + CardReviews(base, pages(n))
  {
    MapAppend(c => ReviewOf(base, c), PagesCards(pages, n - 1), pages(n));
  }

  /** Counts 20, 20, 7: three requests and 47 records. */
  lemma ThreePagesExample(pages: Pages, base: string)
    requires |pages(1)| == 20 && |pages(2)| == 20 && |pages(3)| == 7
    ensures Ends(pages) && LastPage(pages) == 3
    ensures |PagesReviews(pages, base, 3)| == 47
  {
    assert FirstShortPage(pages, 3);
    FirstShortPageUnique(pages, 3, LastPage(pages));
    PagesReviewsCount(pages, base, 3);
  }

  /** An empty first page: one request and no record. */
  lemma EmptyFirstPageExample(pages: Pages, base: string)
    requires pages(1) == []
    ensures Ends(pages) && LastPage(pages) == 1
    ensures PagesReviews(pages, base, 1) == []
  {
    assert FirstShortPage(pages, 1);
    FirstShortPageUnique(pages, 1, LastPage(pages));
    PagesReviewsCount(pages, base, 1);
  }

  /** Every record of the crawl carries the school's name and base URL. */
  lemma PagesReviewsOfSchool(pages: Pages, base: string, n: nat)
    ensures forall r :: r in PagesReviews(pages, base, n) ==> r.url == base && r.ecole == SchoolName(base)
  {
    var cards := PagesCards(pages, n);
    forall r | r in CardReviews(base, cards) ensures r.url == base && r.ecole == SchoolName(base) {
      var k :| 0 <= k < |cards| && CardReviews(base, cards)[k] == r;
      CardReviewsAt(base, cards, k);
    }
  }

  /** The statements of the loop body for one card. */
  method CardRecord(base: string, avis: Card) returns (r: Review)
    ensures r == ReviewOf(base, avis)
  {
    var auteur, date;
    if avis.authorLine.Some? {
      var p := avis.authorLine.value;
      auteur := if p.authorSpan.Some? then TextOf(p.authorSpan.value) else "";
      var fullText := TextOf(p.texts);
      date := Strip(RemoveAll(RemoveAll(fullText, auteur), PUBLISHED));
    } else {
      auteur, date := "", "";
    }
    var note := if avis.noteSpan.Some? then ReplaceChar(TextOf(avis.noteSpan.value), ',', '.') else "";
    var contenu := if avis.content.Some? then TextOf(avis.content.value) else "";
    var ecole := Title(ReplaceChar(RemoveAll(LastSegment(base), HTML), '-', ' '));
    r := Review(ecole, auteur, date, note, contenu, base);
  }

  /** `for avis in avis_divs: avis_list.append(...)`. */
  method AppendCards(acc: seq<Review>, base: string, cards: seq<Card>) returns (out: seq<Review>)
    ensures out == acc + CardReviews(base, cards)
  {
    out := acc;
    for k := 0 to |cards|
      invariant out == acc + CardReviews(base, cards[..k])
    {
      var r := CardRecord(base, cards[k]);
      MapStep(c => ReviewOf(base, c), cards, k);
      AppendAssoc(acc, CardReviews(base, cards[..k]), [r]);
      out := out + [r];
    }
    assert cards[..|cards|] == cards;
  }

  /** One request of the loop: the URL of page `page` and the cards
      found there. */
  method RequestPage(base: string, fetch: string -> seq<Card>, page: nat)
    returns (cards: seq<Card>)
    requires 1 <= page
    ensures cards == SchoolPages(fetch, base)(page)
  {
    var url := base + "?page=" + NatToString(page) + REVIEWS_ANCHOR;
    assert url == ReviewPageUrl(base, page);
    cards := fetch(url);
  }

  /** One pass of the loop body: request page `page`, record its cards,
      and tell whether the loop stops here (an empty page or one of fewer
      than 20 cards). */
  method CrawlStep(acc: seq<Review>, base: string, fetch: string -> seq<Card>, page: nat,
                   before: seq<Review>)
    returns (out: seq<Review>, stop: bool)
    requires 1 <= page
    requires before == acc + PagesReviews(SchoolPages(fetch, base), base, page - 1)
    ensures stop <==> |SchoolPages(fetch, base)(page)| < PAGE_SIZE
    ensures out == acc + PagesReviews(SchoolPages(fetch, base), base, page)
  {
    ghost var pages := SchoolPages(fetch, base);
    var cards;
    cards := RequestPage(base, fetch, page);
    PagesReviewsStep(pages, base, page);
    out, stop := before, true;
    if cards == [] {
      return;
    }
    out := AppendCards(out, base, cards);
    AppendAssoc(acc, PagesReviews(pages, base, page - 1), CardReviews(base, cards));
    stop := |cards| < PAGE_SIZE;
  }

  /** The `while True` loop of one school: request page 1, 2, ... until
      the loop stops. `bound` is a page known to be short; the loop ends
      at the first. */
  method CrawlSchool(acc: seq<Review>, base: string, fetch: string -> seq<Card>, ghost bound: nat)
    returns (out: seq<Review>, page: nat)
    requires 1 <= bound && |SchoolPages(fetch, base)(bound)| < PAGE_SIZE
    ensures FirstShortPage(SchoolPages(fetch, base), page)
    ensures out == acc + PagesReviews(SchoolPages(fetch, base), base, page)
  {
    ghost var pages := SchoolPages(fetch, base);
    out, page := acc, 0;
    var stop := false;
    while !stop
      invariant page <= bound
      invariant stop ==> 1 <= page && |pages(page)| < PAGE_SIZE
      invariant forall p :: 1 <= p < page ==> |pages(p)| >= PAGE_SIZE
      invariant !stop ==> forall p :: 1 <= p <= page ==> |pages(p)| >= PAGE_SIZE
      invariant out == acc + PagesReviews(pages, base, page)
      decreases bound - page, !stop
    {
      page := page + 1;
      out, stop := CrawlStep(acc, base, fetch, page, out);
    }
  }

  // ---------------------------------------------------------------------
  // All schools

  /** The crawl of every school ends. */
  ghost predicate AllEnd(fetch: string -> seq<Card>, schools: seq<string>) {
    forall i :: 0 <= i < |schools| ==> Ends(SchoolPages(fetch, schools[i]))
  }

  /** The records of one school: those of its pages up to the first short one. */
  ghost function SchoolReviews(fetch: string -> seq<Card>, base: string): seq<Review>
    requires Ends(SchoolPages(fetch, base))
  {
    var pages := SchoolPages(fetch, base);
    PagesReviews(pages, base, LastPage(pages))
  }

  /** The records of the schools, in school order. */
  ghost function AllReviews(fetch: string -> seq<Card>, schools: seq<string>): seq<Review>
    requires AllEnd(fetch, schools)
  {
    if schools == [] then []
    else AllReviews(fetch, schools[..|schools| - 1]) + SchoolReviews(fetch, schools[|schools| - 1])
  }

  /** Every record names one of the schools: its `url` is that school's
      base URL and its `ecole` the name derived from it. */
  lemma {:induction false} AllReviewsFromSchools(fetch: string -> seq<Card>, schools: seq<string>)
    requires AllEnd(fetch, schools)
    ensures forall r :: r in AllReviews(fetch, schools) ==> r.url in schools && r.ecole == SchoolName(r.url)
  {
    if schools != [] {
      var init, last := schools[..|schools| - 1], schools[|schools| - 1];
      assert AllEnd(fetch, init) by {
        forall i | 0 <= i < |init| ensures Ends(SchoolPages(fetch, init[i])) {
          assert init[i] == schools[i];
        }
      }
      AllReviewsFromSchools(fetch, init);
      var pages := SchoolPages(fetch, last);
      PagesReviewsOfSchool(pages, last, LastPage(pages));
      forall r | r in AllReviews(fetch, schools) ensures r.url in schools && r.ecole == SchoolName(r.url) {
        if r in AllReviews(fetch, init) {
          assert r.url in init;
        }
      }
    }
  }

  /** The records of the first schools come first: a later school only
      appends. */
  lemma {:induction false} AllReviewsPrefix(fetch: string -> seq<Card>, schools: seq<string>, k: nat)
    requires AllEnd(fetch, schools) && k <= |schools|
    ensures AllEnd(fetch, schools[..k])
    ensures AllReviews(fetch, schools[..k]) <= AllReviews(fetch, schools)
    decreases |schools|
  {
    assert AllEnd(fetch, schools[..k]) by {
      forall i | 0 <= i < k ensures Ends(SchoolPages(fetch, schools[..k][i])) {
        assert schools[..k][i] == schools[i];
      }
    }
    if k < |schools| {
      var init := schools[..|schools| - 1];
      assert AllEnd(fetch, init) by {
        forall i | 0 <= i < |init| ensures Ends(SchoolPages(fetch, init[i])) {
          assert init[i] == schools[i];
        }
      }
      AllReviewsPrefix(fetch, init, k);
      assert init[..k] == schools[..k];
    } else {
      assert schools[..k] == schools;
    }
  }

  /** One pass of the school loop: crawl school `i` and append its records. */
  method VisitReviewSchool(avis: seq<Review>, schools: seq<string>, i: nat, fetch: string -> seq<Card>)
    returns (out: seq<Review>)
    requires i < |schools| && AllEnd(fetch, schools)
    requires AllEnd(fetch, schools[..i]) && AllEnd(fetch, schools[..i + 1])
    requires avis == AllReviews(fetch, schools[..i])
    ensures out == AllReviews(fetch, schools[..i + 1])
  {
    var base := schools[i];
    ghost var pages := SchoolPages(fetch, base);
    assert Ends(pages);
    ghost var bound := LastPage(pages);
    var page;
    out, page := CrawlSchool(avis, base, fetch, bound);
    FirstShortPageUnique(pages, page, bound);
    assert schools[..i + 1][..i] == schools[..i];
  }

  /** The script's school loop: the records of every school, in school
      order, each school crawled up to its first short page. */
  method ScrapeReviews(schools: seq<string>, fetch: string -> seq<Card>) returns (avis: seq<Review>)
    requires AllEnd(fetch, schools)
    ensures avis == AllReviews(fetch, schools)
  {
    avis := [];
    for i := 0 to |schools|
      invariant AllEnd(fetch, schools[..i])
      invariant avis == AllReviews(fetch, schools[..i])
    {
      AllReviewsPrefix(fetch, schools, i + 1);
      avis := VisitReviewSchool(avis, schools, i, fetch);
    }
    assert schools[..|schools|] == schools;
  }

  // ---------------------------------------------------------------------
  // The DataFrame and its CSV

  /** The cells of one record, in the order of its dict's keys. */
  function ReviewCells(r: Review): (cs: seq<string>)
    ensures |cs| == |REVIEW_COLUMNS|
  {
    [r.ecole, r.auteur, r.date, r.note, r.contenu, r.url]
  }

  /** `pd.DataFrame(avis_list).to_csv(index=False)`: the dict keys as the
      header and one line per record; no record gives no column at all. */
  function ReviewCsv(avis: seq<Review>): (t: seq<seq<string>>)
    ensures |t| == |avis| + 1
    ensures t[0] == if avis == [] then [] else REVIEW_COLUMNS
  {
    [if avis == [] then [] else REVIEW_COLUMNS] + seq(|avis|, i requires 0 <= i < |avis| => ReviewCells(avis[i]))
  }

  /** Reading the written table back (skipping the header) gives the records. */
  function ReviewsFromCsv(t: seq<seq<string>>): seq<Review> {
    if |t| <= 1 then []
    else
      var line := t[|t| - 1];
      ReviewsFromCsv(t[..|t| - 1]) + [if |line| >= 6 then Review(line[0], line[1], line[2], line[3], line[4], line[5]) else Review("", "", "", "", "", "")]
  }

  lemma {:induction false} ReviewCsvRoundTrip(avis: seq<Review>)
    ensures ReviewsFromCsv(ReviewCsv(avis)) == avis
  {
    if avis != [] {
      var init := avis[..|avis| - 1];
      ReviewCsvRoundTrip(init);
      assert ReviewCsv(avis)[1..|avis|] == ReviewCsv(init)[1..];
      assert ReviewCsv(avis)[..|avis|][1..] == ReviewCsv(init)[1..];
      ReviewsFromCsvHeader(ReviewCsv(avis)[..|avis|], ReviewCsv(init));
      assert init + [avis[|avis| - 1]] == avis;
    }
  }

  /** Only the lines after the header are read back. */
  lemma {:induction false} ReviewsFromCsvHeader(t: seq<seq<string>>, u: seq<seq<string>>)
    requires |t| >= 1 && |u| >= 1 && t[1..] == u[1..]
    ensures ReviewsFromCsv(t) == ReviewsFromCsv(u)
    decreases |t|
  {
    if |t| > 1 {
      assert t[..|t| - 1][1..] == u[..|u| - 1][1..];
      ReviewsFromCsvHeader(t[..|t| - 1], u[..|u| - 1]);
      assert t[|t| - 1] == u[|u| - 1];
    }
  }

  /** The DataFrame columns and the CSV written from the records. */
  method ExportReviews(avis: seq<Review>) returns (columns: seq<string>, csv: seq<seq<string>>)
    ensures columns == if avis == [] then [] else REVIEW_COLUMNS
    ensures csv == ReviewCsv(avis)
  {
    var keyLists := seq(|avis|, _ => REVIEW_COLUMNS);
    ReviewColumnsDistinct();
    UniformFrameColumns(keyLists, REVIEW_COLUMNS);
    columns := FrameColumns(keyLists);
    csv := [columns] + seq(|avis|, i requires 0 <= i < |avis| => ReviewCells(avis[i]));
  }
}
