# Engineering-school scraping pipeline: the deterministic core in Dafny

This project models the part of the letudiant.fr scraping pipeline that can be pinned down exactly: what the scripts do with a page once they have it.

- **Ranking links** (`Ranking`, data/scrapping_letudiant_liens_ranking.py):
  - picks out the "Voir la fiche complète" buttons of a ranking page;
  - turns each into an absolute URL without fragment, named after the nearest earlier anchor whose href contains it;
  - walks ranking pages 1 to 9 and writes the `name,url` table.
- **Criteria extraction** (`Criteria`, shared by both school-data files):
  - for each configured thematic id, finds the header and criteria divs by id suffix;
  - emits one record per labelled criterion row, with "N/A" for a missing score or note;
  - a header div without `<h2>` raises an uncaught error, modelled as a failure.
- **The class `ScrappingSchoolData`** (`SchoolData`, data/scrapping_school_data.py):
  - the school table keyed by name;
  - the success flag, and the alternative URL tried only when the primary page had no criteria section;
  - the DataFrame with its fixed columns, and the CSV export.
- **The root criteria script** (`ThemesScript`, scrapping_school_data.py): the same extraction over a two-school dict. It has no fallback and no success flag, and writes a `csv.DictWriter` file and a pandas file.
- **Review crawling** (`Reviews`, shared by both `scrapper.py` files):
  - each card's author, date, note, content and school name;
  - the `?page=N#avis-authentifies` pagination, which stops after the first page with fewer than 20 cards (an empty page is one of them);
  - the loop over the schools, and the pandas CSV.
- **The review scripts** (`ReviewScripts`):
  - data/scrapper.py reads its schools from the links CSV;
  - scrapper.py uses three hard-coded schools.

Pages are abstract values:
- a ranking page is its anchors;
- a detail page is its divs (id, `<h2>` text, criterion rows);
- a review page is its cards, with every sub-element optional.

The network and the browser are function parameters (`fetch`, `render`) from URL to page.

Every loop of the source is a Dafny `method` with a `while`/`for` loop. It is proved against a specification function, and that function's properties are proved as lemmas. `ScrappingSchoolData` is a class whose methods update `urls` and `data`, and `converted`, which records that `convert_data_into_df` has replaced the list `data` by a DataFrame. The module-level scripts pass their accumulating list along as a value.

`Text`, `Seqs`, `Tables` and `Wrappers` hold the Python string operations, the sequence lemmas, the pandas column inference and `Option`/`Result`.

The model follows the code as written; in particular:
- The ranking crawl has no early stop and no de-duplication. It always requests pages 1 to 9 and keeps every row, including rows for schools listed twice.
- Schools are keyed by their raw name, not a normalised one; a repeated name keeps the last line's URLs.
- After a fallback, `scrape_data` ignores the second attempt's success flag; nothing records it.
- A header div without `<h2>` is not recovered locally. The `AttributeError` is raised outside the row `try`, so it ends the whole run, and the CSVs are never written.
- `convert_data_into_df` assigns the DataFrame to `self.data`. A second conversion or export then raises `ValueError` at `if self.data`, and rows scraped afterwards are lost, because `append` fails inside the row `try`.
- No name-resolution or false-positive code exists in the modelled files; only configuration constants for them do.

## Model

| member | source | states |
|---|---|---|
| Ranking.IsButtonCaseInsensitive | data/scrapping_letudiant_liens_ranking.py:33-37 | whether an anchor is a button does not depend on the letter case of its text |
| Ranking.IsButton | data/scrapping_letudiant_liens_ranking.py:33-37 | a button is an anchor with an href whose single string is non-empty and contains the button text ignoring case; the case independence is `Ranking.IsButtonCaseInsensitive` |
| Ranking.Name | data/scrapping_letudiant_liens_ranking.py:42 | `get_text(" ", strip=True)`: the anchor's stripped non-empty text nodes joined by spaces; `Ranking.NameOfSingleText` states that one text node gives its stripped text |
| Ranking.NameOfSingleText | data/scrapping_letudiant_liens_ranking.py:42 | an anchor with one non-blank text node is named by that text, stripped |
| Ranking.Join | data/scrapping_letudiant_liens_ranking.py:38 | `urljoin(BASE, href)` for the reference shapes the site uses, without urllib's re-composition (scheme case, empty `?` or `;`); `Ranking.ButtonUrlOfPath` states that a site-absolute path is appended to the site root |
| Ranking.NearestPrevious | data/scrapping_letudiant_liens_ranking.py:40 | `find_previous` only looks at anchors before the button |
| Ranking.NearestPreviousSpec | data/scrapping_letudiant_liens_ranking.py:40 | the anchor found is the nearest earlier one whose href contains the button's href as a literal substring; when none is found, no earlier anchor matches |
| Ranking.ButtonUrl | data/scrapping_letudiant_liens_ranking.py:38 | the emitted URL has no `#` |
| Ranking.ButtonUrlOfPath | data/scrapping_letudiant_liens_ranking.py:38 | a site-absolute href `/path` without fragment becomes `BASE + path` |
| Ranking.RowAt | data/scrapping_letudiant_liens_ranking.py:38-43 | a row comes only from a button and carries that button's joined, defragmented URL |
| Ranking.RowAtNamed | data/scrapping_letudiant_liens_ranking.py:40-43 | a row's name is the `get_text` of the nearest earlier anchor whose href contains the button's href |
| Ranking.RowAtSkipsUnnamedButton | data/scrapping_letudiant_liens_ranking.py:40-43 | a button yields no row exactly when no earlier anchor's href contains its href |
| Ranking.RowsAtCount | data/scrapping_letudiant_liens_ranking.py:38-43 | an anchor yields one row exactly when it is a named button, and none otherwise |
| Ranking.RowsAtMember | data/scrapping_letudiant_liens_ranking.py:38-43 | a row is among an anchor's rows exactly when that anchor yields it |
| Ranking.RowsUpToStep | data/scrapping_letudiant_liens_ranking.py:33-44 | one more anchor appends its zero or one row at the end |
| Ranking.ButtonRow | data/scrapping_letudiant_liens_ranking.py:38-43 | the loop body gives exactly the rows of the anchor at `i` |
| Ranking.ExtractRows | data/scrapping_letudiant_liens_ranking.py:28-44 | `extract_rows` returns the rows of the anchors, in document order |
| Ranking.RowsUpToMembers | data/scrapping_letudiant_liens_ranking.py:33-44 | a row is in the result exactly when some anchor yields it |
| Ranking.RowsUpToPrefix | data/scrapping_letudiant_liens_ranking.py:30-43 | rows are only appended: the rows of a prefix of the page are a prefix of the result |
| Ranking.RowsPerButton | data/scrapping_letudiant_liens_ranking.py:33-44 | there are at most as many rows as buttons |
| Ranking.RowsPerNamedButton | data/scrapping_letudiant_liens_ranking.py:33-44 | when every button is named, there is exactly one row per button |
| Ranking.RowsHaveNoFragment | data/scrapping_letudiant_liens_ranking.py:38-43 | no URL of a page's rows contains `#` |
| Ranking.PageUrlsDistinct | data/scrapping_letudiant_liens_ranking.py:51-52 | pages 1 to 9 are requested at nine different URLs |
| Ranking.PageUrl | data/scrapping_letudiant_liens_ranking.py:52 | page 1 is the bare ranking URL and page `p` adds `?page=p`; `Ranking.PageUrlsDistinct` states that pages 1 to 9 differ |
| Ranking.PageUrls | data/scrapping_letudiant_liens_ranking.py:51-52 | `k` pages give `k` request URLs |
| Ranking.PageUrlsAt | data/scrapping_letudiant_liens_ranking.py:51-52 | the `i`-th request is for page `i + 1`, and no request URL is repeated |
| Ranking.PageRows | data/scrapping_letudiant_liens_ranking.py:51-55 | one row list per requested page, empty pages included |
| Ranking.PageRowsAt | data/scrapping_letudiant_liens_ranking.py:51-55 | entry `i` is the rows of the page fetched at page `i + 1`'s URL |
| Ranking.PageRowsInPlace | data/scrapping_letudiant_liens_ranking.py:50-55 | page `p`'s rows sit unchanged right after the rows of pages 1 to `p - 1`: nothing is de-duplicated or dropped |
| Ranking.RankingCsv | data/scrapping_letudiant_liens_ranking.py:60-63 | the table is the header `name,url` followed by one line per row |
| Ranking.RankingCsvRoundTrip | data/scrapping_letudiant_liens_ranking.py:60-63 | reading the written table back gives exactly the accumulated rows |
| Ranking.ExtractRankingPage | data/scrapping_letudiant_liens_ranking.py:46-65 | exactly pages 1 to 9 are requested, in order; the result is the concatenation of their rows, and the CSV is built from it |
| Text.EndsWithIffSlice | data/scrapping_school_data.py:44 | `endswith` holds exactly when the last characters equal the suffix |
| Text.Contains | data/scrapping_letudiant_liens_ranking.py:36 | a contained text is no longer than the text containing it |
| Text.ContainsIffOccurs | data/scrapping_letudiant_liens_ranking.py:36 | `in` on strings holds exactly when some occurrence exists |
| Text.Lower | data/scrapping_letudiant_liens_ranking.py:36 | lower-casing keeps the length, lowers exactly the upper-case letters, keeps every other character, and leaves no upper-case letter |
| Text.LowerIdempotent | data/scrapping_letudiant_liens_ranking.py:36 | lower-casing twice changes nothing more |
| Text.StripLeftSpec | data/scrapper.py:42 | `lstrip` removes exactly the leading spaces |
| Text.StripRightSpec | data/scrapper.py:42 | `rstrip` removes exactly the trailing spaces |
| Text.StripIsTrimmedSlice | data/scrapper.py:42 | `strip` gives a slice of its input with spaces dropped only at the two ends, and a non-empty result neither starts nor ends with a space |
| Text.StripIdempotent | data/scrapper.py:42 | stripping twice changes nothing more |
| Text.RemoveAll | data/scrapper.py:42 | `replace(pat, "")` never lengthens the text or adds characters; it is the identity when `pat` is empty or absent, and strictly shortens otherwise |
| Text.RemoveAllStep | data/scrapper.py:42 | `replace(pat, "")` removes a leftmost occurrence and goes on after it: a text before which `pat` does not start is kept |
| Text.RemoveAllPrefix | data/scrapper.py:42 | `replace(pat, "")` on a text that starts with `pat` removes that occurrence and goes on with the rest |
| Text.ReplaceChar | data/scrapper.py:47 | the one-character `replace` keeps the length and swaps exactly the matching characters |
| Text.ReplaceCharRemoves | data/scrapper.py:52 | after the replacement, the old character is gone and every other character is kept |
| Text.LastSegment | data/scrapper.py:52 | `split("/")[-1]` has no `/` and is the suffix after the last `/` |
| Text.LastSegmentOfSegment | data/scrapper.py:52 | a text without `/` is its own last segment |
| Text.LastSegmentOfPath | data/scrapper.py:52 | whatever precedes the last `/` does not matter |
| Text.TitleFrom | data/scrapper.py:52 | `title()` keeps non-letters and the letter itself up to case; it upper-cases a letter exactly when the previous character is not a letter, and lower-cases a letter that follows a letter |
| Text.Title | data/scrapper.py:52 | title-casing keeps the length |
| Text.TitleFromIdempotent | data/scrapper.py:52 | title-casing from either starting state twice changes nothing more |
| Text.TitleIdempotent | data/scrapper.py:52 | title-casing twice changes nothing more |
| Text.TitleKeepsNonLetters | data/scrapper.py:52 | a non-letter is in the title-cased text exactly when it was in the input |
| Text.NatToString | data/scrapper.py:24 | the page number prints as decimal digits |
| Text.DigitChar | data/scrapper.py:24 | a digit prints as a character between 0 and 9 |
| Text.NatToStringInjective | data/scrapper.py:24 | different page numbers print differently |
| Text.NatToStringValue | data/scrapper.py:24 | reading the printed page number back as a decimal gives the number |
| Text.Defrag | data/scrapping_letudiant_liens_ranking.py:38 | `urldefrag(...).url` is the URL up to its first `#`, taken as written rather than re-composed by `urlunparse`, and contains no `#` |
| Text.DefragIdempotent | data/scrapping_letudiant_liens_ranking.py:38 | a URL without fragment is unchanged |
| Text.TextOf | data/scrapper.py:40-50 | `get_text(strip=True)`: every text node stripped, then joined without separator; stated by `Text.TextOfAppend` and `Text.TextOfSingle` |
| Text.TextOfAppend | data/scrapper.py:40-50 | `get_text(strip=True)` adds each further text node, stripped, at the end |
| Text.TextOfSingle | data/scrapper.py:40-50 | a single text node gives its stripped text |
| Criteria.ColumnsDistinct | data/scrapping_school_data.py:124-131 | the six declared field names are distinct |
| Criteria.FindDivFrom | data/scrapping_school_data.py:78-85 | `soup.find` by id suffix returns the first div whose non-empty id ends with the suffix, or reports that none does |
| Criteria.SectionTitleCases | data/scrapping_school_data.py:78-81 | without a header div the title is `Thématique {id}`; it fails exactly when the first header div has no `<h2>`; otherwise it is that `<h2>` text stripped |
| Criteria.SectionTitle | data/scrapping_school_data.py:78-81 | the title of an id: the default, the stripped `<h2>` text, or the missing-heading failure; the three cases are `Criteria.SectionTitleCases` |
| Criteria.RowRecord | data/scrapping_school_data.py:94-110 | a row gives no record exactly when its label span is missing; the label, score and note are their elements' text nodes, each stripped, joined; a missing score or note becomes "N/A"; the record carries the school, title and id |
| Criteria.ScoreJoinsTextNodes | data/scrapping_school_data.py:102-103 | a score split over the text nodes " 7,5 " and "/10" is recorded as "7,5/10" |
| Criteria.ThemeRecordsTagged | data/scrapping_school_data.py:92-110 | every record of a criteria div carries the school, title and id, and comes from one of its labelled rows |
| Criteria.ThemeRecordsSplit | data/scrapping_school_data.py:93-112 | a skipped row does not stop its siblings: the records of two runs of rows are concatenated |
| Criteria.ThemeRecordsStep | data/scrapping_school_data.py:93-110 | one more row of the loop appends that row's records, and nothing else |
| Criteria.ThemeRecordsCount | data/scrapping_school_data.py:93-112 | at most one record per row, and exactly one per row when every row is labelled |
| Criteria.ThemeOfCases | data/scrapping_school_data.py:78-92 | an id fails exactly when its title does, with `MissingHeading`; otherwise it is found exactly when a criteria div exists, and its records carry the school and the id |
| Criteria.ThemeOf | data/scrapping_school_data.py:78-112 | one id's outcome: failure, no criteria div, or the records of its rows; the cases are `Criteria.ThemeOfCases` |
| Criteria.Outcomes | data/scrapping_school_data.py:77 | one outcome per configured id |
| Criteria.OutcomesAt | data/scrapping_school_data.py:77 | outcome `k` is that of id `k`, and the outcomes of a prefix of the ids are a prefix |
| Criteria.OutcomesStep | data/scrapping_school_data.py:77-112 | one more id is one more step of the loop |
| Criteria.AttemptFailure | data/scrapping_school_data.py:77-81 | the loop fails exactly when some id fails, and with the first such failure |
| Criteria.AttemptAppend | data/scrapping_school_data.py:77-112 | the loop over one more outcome is one more step |
| Criteria.StepContributes | data/scrapping_school_data.py:86-110 | before a failure, a step appends the outcome's records, sets the flag exactly when a criteria div was found, and records the failure |
| Criteria.AttemptStopped | data/scrapping_school_data.py:77-81 | after a failure, the remaining ids change nothing |
| Criteria.AttemptRecords | data/scrapping_school_data.py:77-112 | without failure, the records are the contributions of all ids, in order |
| Criteria.AttemptRecordsToFailure | data/scrapping_school_data.py:77-112 | after a failure, the records are the contributions of the ids before it |
| Criteria.AttemptFound | data/scrapping_school_data.py:75-90 | without failure, `success` holds exactly when some id found its criteria div; a false flag means no record |
| Criteria.AttemptRecordsFrom | data/scrapping_school_data.py:83-110 | every record comes from an id whose criteria div was found |
| Criteria.AttemptInOrder | data/scrapping_school_data.py:77-110 | when each outcome's records carry its distinct tag, no record of a later tag precedes one of an earlier tag |
| Criteria.PageFromOutcomes | data/scrapping_school_data.py:77-113 | a loop that ran the ids in order until the end or a failure has the result of the whole page |
| Criteria.PageFailsIff | data/scrapping_school_data.py:78-81 | the page fails exactly when some id's title fails, with the first such id's failure |
| Criteria.PageFoundIff | data/scrapping_school_data.py:75-113 | without failure, `success` holds exactly when some id has a criteria div, even one without rows; a false flag means no record |
| Criteria.PageRecordsTagged | data/scrapping_school_data.py:101-110 | every record of a page carries the school key and an id from the configured list |
| Criteria.PageThemesInOrder | data/scrapping_school_data.py:77-110 | with distinct ids, themes come out in configured order |
| Criteria.ConfiguredThemesInOrder | data/config.py:13 | with the configured ids, themes come out in the order 425, 426, 427, 429, 430, 431 |
| Criteria.Cells | scrapping_school_data.py:71-73 | one line has a cell per declared field |
| Criteria.CriteriaCsv | scrapping_school_data.py:69-73 | the DictWriter file is the six field names, then one line per record in append order |
| SchoolData.Insert | data/scrapping_school_data.py:47-50 | inserting a key keeps the dict well formed |
| SchoolData.Names | data/scrapping_school_data.py:48 | the name of each line, in file order |
| SchoolData.TableOf | data/scrapping_school_data.py:47-50 | the dict built from the lines is well formed |
| SchoolData.TableKeysInFirstOrder | data/scrapping_school_data.py:47-50 | the schools are the distinct names, in order of first appearance |
| SchoolData.LastRowWins | data/scrapping_school_data.py:47-50 | a repeated name keeps the URLs of its last line |
| SchoolData.TableNames | data/scrapping_school_data.py:47-50 | a name is a school exactly when some line carries it |
| SchoolData.NoAltColumnNoAlternative | data/scrapping_school_data.py:48 | a file without `alt_url` values gives every school an empty alternative |
| SchoolData.PagesSound | data/scrapping_school_data.py:75-110 | a page attempt that found nothing adds no records, and its records carry the school and one of the ids |
| SchoolData.PagesEmptyWhenNotFound | data/scrapping_school_data.py:75-90 | an attempt whose flag is false has no records |
| SchoolData.PagesTagged | data/scrapping_school_data.py:101-110 | an attempt's records carry its school and one of the ids |
| SchoolData.FallbackPolicy | data/scrapping_school_data.py:61-67 | the alternative is loaded exactly when the primary did not fail, found nothing, and the alternative is non-empty; all of that school's records then come from the alternative |
| SchoolData.SchoolOutcome | data/scrapping_school_data.py:61-67 | one school's records, loaded pages and failure under the fallback; stated by `SchoolData.FallbackPolicy` |
| SchoolData.RunStopsAtFailure | data/scrapping_school_data.py:57-69 | once a school fails, no later school is visited |
| SchoolData.Run | data/scrapping_school_data.py:57-67 | the schools visited in table order until the first failure; stated by `SchoolData.RunStopsAtFailure`, `SchoolData.RunRecordsTagged` and `SchoolData.RunFetchesEverySchool` |
| SchoolData.RunFinished | data/scrapping_school_data.py:58-67 | a loop that stopped at the end of the table or at a failure has the result of the whole run |
| SchoolData.RunRecordsTagged | data/scrapping_school_data.py:58-110 | every record belongs to a school of the table and to one of the ids |
| SchoolData.RunFetchesEverySchool | data/scrapping_school_data.py:58-63 | without failure, every school's primary page is loaded |
| SchoolData.RunWithoutAlternatives | data/scrapping_school_data.py:61-67 | without alternatives, only primary pages are loaded, at most one per school |
| SchoolData.ScrappingSchoolData.constructor | data/scrapping_school_data.py:16-26 | the ids are required; a missing table becomes an empty one; `data` starts empty |
| SchoolData.ScrappingSchoolData.LoadUrls | data/scrapping_school_data.py:37-50 | the path must end in ".csv"; the table becomes the dict of the file's lines |
| SchoolData.ScrappingSchoolData.AppendRows | data/scrapping_school_data.py:92-112 | `data` grows by exactly the records of the rows, or by nothing once it is a DataFrame |
| SchoolData.ScrappingSchoolData.ScrapeTheme | data/scrapping_school_data.py:77-112 | one id's outcome, and `data` grows by what it contributes |
| SchoolData.ScrappingSchoolData.ScrapeNext | data/scrapping_school_data.py:77-112 | iteration `t` is one step of the loop over the ids |
| SchoolData.ScrappingSchoolData.ScrapeSchoolData | data/scrapping_school_data.py:71-113 | `data` grows by the page's records; `success` is the page's flag; a failure is reported |
| SchoolData.ScrappingSchoolData.ScrapeSchool | data/scrapping_school_data.py:61-67 | one school follows the fallback policy, including which pages are loaded |
| SchoolData.ScrappingSchoolData.VisitSchool | data/scrapping_school_data.py:58-67 | iteration `i` is one step of the run over the table |
| SchoolData.ScrappingSchoolData.ScrapeData | data/scrapping_school_data.py:53-69 | `data` grows by the records of every school in table order, until a failure; the pages loaded are those of the run |
| SchoolData.ScrappingSchoolData.Appended | data/scrapping_school_data.py:101-112 | appended records are kept in full while `data` is a list, and are all lost once it is a DataFrame |
| SchoolData.ScrappingSchoolData.ConvertDataIntoDf | data/scrapping_school_data.py:115-134 | the first call gives the DataFrame with exactly the six declared columns in declared order, with or without records, and replaces `data` by it; every later call fails with the ambiguous-truth-value error |
| SchoolData.ScrappingSchoolData.ExportDataToCsv | data/scrapping_school_data.py:136-142 | the first export writes the header and one line per record; it converts `data`, so a later export or conversion fails |
| SchoolData.ScrapeAndExport | data/scrapping_school_data.py:145-149 | the script exports exactly when no school fails, and the CSV holds the records of the whole run |
| Tables.AddKeys | data/scrapping_school_data.py:121 | pandas' column union keeps the earlier columns and adds exactly the new keys |
| Tables.AddKeysToEmpty | data/scrapping_school_data.py:121 | distinct keys added to no columns become the columns in key order |
| Tables.AddKeysPresent | data/scrapping_school_data.py:121 | keys that are already columns add no column |
| Tables.UniformFrameColumns | data/scrapping_school_data.py:121 | rows sharing the same distinct keys give those keys as columns; no rows give no columns |
| ThemesScript.UrlsLiteral | scrapping_school_data.py:21-24 | the dict literal holds the two schools in literal order, each with its one URL |
| ThemesScript.NoFallback | scrapping_school_data.py:31-34 | a school without alternative is its single page attempt |
| ThemesScript.ScriptLoadsEachSchoolOnce | scrapping_school_data.py:31-34 | the script loads polytechnique's page, then efrei's unless the first failed, and no other page |
| ThemesScript.ScriptRecordsTagged | scrapping_school_data.py:31-62 | every record belongs to one of the two schools and to one of the ids |
| ThemesScript.AppendCriteria | scrapping_school_data.py:46-64 | the rows loop appends exactly the records of the labelled rows |
| ThemesScript.ThemeIteration | scrapping_school_data.py:36-64 | one id's outcome, and the list grows by what it contributes |
| ThemesScript.ThemeNext | scrapping_school_data.py:36-64 | iteration `t` is one step of the loop over the ids |
| ThemesScript.ThemesLoop | scrapping_school_data.py:36-64 | the loop over the ids adds the page's records and reports its failure, with no success flag |
| ThemesScript.SchoolIteration | scrapping_school_data.py:31-64 | iteration `i` loads the school's page once and is one step of the run |
| ThemesScript.SchoolsLoop | scrapping_school_data.py:31-64 | the records of every school in dict order, as the run of data/scrapping_school_data.py without alternative URLs would give them |
| ThemesScript.WriteRows | scrapping_school_data.py:70-73 | `writeheader` then `writerows` give the DictWriter table |
| ThemesScript.PandasCsv | scrapping_school_data.py:78-81 | the pandas file has a line per record, under the six columns, or no columns without records |
| ThemesScript.SaveDataFrame | scrapping_school_data.py:78-81 | the DataFrame saved gives the pandas table |
| ThemesScript.PandasMatchesDictWriter | scrapping_school_data.py:69-81 | once a record exists, the two files hold the same table |
| ThemesScript.Script | scrapping_school_data.py:21-81 | both files are written exactly when no failure occurs, and hold the run's records |
| Reviews.ReviewColumnsDistinct | data/scrapper.py:54-63 | the six record keys are distinct |
| Reviews.ReviewOfFields | data/scrapper.py:37-63 | a record carries the base URL and the school name; a missing author paragraph gives an empty author and date, a missing author span an empty author, missing note and content empty texts |
| Reviews.ReviewOf | data/scrapper.py:37-63 | the record of one card; its fields are stated by `Reviews.ReviewOfFields` |
| Reviews.NoteOf | data/scrapper.py:46-47 | the note's text with commas turned into points, or empty without a note span; stated by `Reviews.NoteNormalised` |
| Reviews.DateOf | data/scrapper.py:41-42 | the paragraph's text with the author and "a publié un avis le" removed, stripped; stated by `Reviews.DateTrimmed`, `Reviews.DateOfPlainText` and `Reviews.DateOfTypicalCard` |
| Reviews.NoteNormalised | data/scrapper.py:46-47 | the note keeps its length and every character, with commas turned into points; no comma is left |
| Reviews.DateTrimmed | data/scrapper.py:42 | the date neither starts nor ends with a space |
| Reviews.DateOfPlainText | data/scrapper.py:41-42 | a paragraph holding neither the author nor "a publié un avis le" gives its stripped text as the date |
| Reviews.DateOfTypicalCard | data/scrapper.py:41-42 | a paragraph reading author, "a publié un avis le", date gives the stripped date |
| Reviews.SchoolNameShape | data/scrapper.py:52 | the school name has no `/` and no `-` |
| Reviews.SchoolNameOfSegment | data/scrapper.py:52 | the school name depends only on the last path segment |
| Reviews.SchoolName | data/scrapper.py:52 | the last path segment without ".html", dashes as spaces, title-cased; stated by `Reviews.SchoolNameShape` and `Reviews.SchoolNameOfHtml` |
| Reviews.HtmlOnlyAtEnd | data/scrapper.py:52 | a segment without ".html" followed by ".html" holds no other occurrence of it |
| Reviews.RemoveHtml | data/scrapper.py:52 | removing ".html" from `seg + ".html"` gives `seg` |
| Reviews.SchoolNameOfHtml | data/scrapper.py:52 | the school at `prefix/seg.html` is `seg` with dashes as spaces, title-cased |
| Reviews.ReviewPageUrlsDistinct | data/scrapper.py:24 | different page numbers are different requests |
| Reviews.ReviewPageUrl | data/scrapper.py:24 | `base?page=n#avis-authentifies`; `Reviews.ReviewPageUrlsDistinct` states that different pages give different URLs |
| Reviews.CardReviews | data/scrapper.py:36-63 | one record per card |
| Reviews.CardReviewsAt | data/scrapper.py:36-63 | record `k` is that of card `k` |
| Reviews.FirstShortPageUnique | data/scrapper.py:33-66 | the page that ends the crawl is unique |
| Reviews.FirstShortPageExists | data/scrapper.py:23-66 | a short page at or before `n` means the crawl ends at or before `n` |
| Reviews.LastPage | data/scrapper.py:23-68 | the number of pages requested: the first page with fewer than 20 cards |
| Reviews.PagesCardsCount | data/scrapper.py:36 | the cards of pages 1 to `n` add up to their count |
| Reviews.CardCountMonotone | data/scrapper.py:36-68 | the cards before page `p` and on page `p` lie within the count of any later page |
| Reviews.PagesCardsAt | data/scrapper.py:36-68 | card `k` of page `p` comes right after the cards of the earlier pages |
| Reviews.PagesReviewsCount | data/scrapper.py:36-63 | exactly one record per card of the pages crawled |
| Reviews.PagesReviewsAt | data/scrapper.py:36-68 | the record of card `k` of page `p` is at its position in page and card order |
| Reviews.PagesReviewsStep | data/scrapper.py:36-68 | one more page appends its records at the end |
| Reviews.ThreePagesExample | data/scrapper.py:23-68 | counts 20, 20, 7 give three requests and 47 records |
| Reviews.EmptyFirstPageExample | data/scrapper.py:33-34 | an empty first page gives one request and no record |
| Reviews.PagesReviewsOfSchool | data/scrapper.py:52-61 | every record of a school's crawl carries its name and its base URL without page suffix |
| Reviews.CardRecord | data/scrapper.py:37-63 | the loop body builds the record of the card |
| Reviews.AppendCards | data/scrapper.py:36-63 | the card loop appends one record per card, in card order |
| Reviews.RequestPage | data/scrapper.py:24-31 | page `n` is requested at `base?page=n#avis-authentifies` |
| Reviews.CrawlStep | data/scrapper.py:24-66 | one page: the crawl stops exactly when it is short, and its cards are recorded either way |
| Reviews.CrawlSchool | data/scrapper.py:20-68 | pages 1, 2, … are requested until the first short page, and the records are those of every card of these pages |
| Reviews.AllReviewsFromSchools | data/scrapper.py:19-63 | every record's URL is one of the schools, and its name is derived from it |
| Reviews.AllReviewsPrefix | data/scrapper.py:19-63 | a later school only appends records |
| Reviews.VisitReviewSchool | data/scrapper.py:19-68 | iteration `i` crawls school `i` and appends its records |
| Reviews.ScrapeReviews | data/scrapper.py:19-72 | the records of every school in school order, each crawled to its first short page |
| Reviews.ReviewCells | data/scrapper.py:54-63 | a record has one cell per key |
| Reviews.ReviewCsv | data/scrapper.py:76-77 | the CSV is the six keys, or no header without records, then one line per record |
| Reviews.ReviewCsvRoundTrip | data/scrapper.py:76-77 | reading the written CSV back gives exactly the records |
| Reviews.ReviewsFromCsvHeader | data/scrapper.py:76-77 | only the lines after the header are read back |
| Reviews.ExportReviews | data/scrapper.py:76-77 | the DataFrame columns are the six keys, or none without records, and the CSV is built from them |
| ReviewScripts.SchoolUrls | data/scrapper.py:8-12 | one base URL per line, in file order |
| ReviewScripts.LoadSchools | data/scrapper.py:8-12 | the reading loop collects the `url` of every line, duplicates kept |
| ReviewScripts.LinksFileSchools | data/scrapper.py:8-12 | reading the file the ranking step writes gives the base URLs of its rows, in ranking order |
| ReviewScripts.TextualDataset | data/scrapper.py:8-77 | the records of every school of the links file, in file order, and the CSV written from them |
| ReviewScripts.TextualDatasetFromLinks | data/scrapper.py:8-63 | every record comes from a line of the links file, under the name derived from its URL |
| ReviewScripts.Dataset | scrapper.py:5-67 | the same crawl over the three fixed schools, in list order, and the CSV written from it |
| ReviewScripts.DatasetSchools | scrapper.py:5-57 | every record belongs to one of the three schools, under the name derived from its URL |

## Left out

- Network, browser and timing: `requests.get`, Selenium, `driver.quit`, `time.sleep` and headers are left out. They become the parameters `fetch` (URL to page) and `render` (URL to rendered page). Fetch errors are not modelled.
- HTML parsing: BeautifulSoup is left out. A page is a value holding the elements the code selects, so `find`, `find_all`, `find_previous` and `select_one` become first-match or nearest-earlier searches over sequences, or optional fields.
- Ranking.Join, Text.Defrag: urllib's re-composition of a parsed URL is not modelled. `urljoin` and `urldefrag` rebuild their result with `urlunparse`, which lower-cases the scheme and drops an empty query `?` or empty parameters `;`. The model keeps the text as written and matches the scheme case-sensitively. So the href `/x?#y` gives `BASE + "/x?"` instead of `BASE + "/x"`, and `HTTPS://www.letudiant.fr/x` is joined as a relative path instead of being taken as absolute.
- Ranking.ButtonUrl: models `urljoin` only for the reference shapes the site uses (absolute, network-path, absolute-path, query or fragment only, and relative to the empty base path). General resolution (section 5.2 of RFC 3986) is library behaviour; only the fragment stripping is proved generally.
- Text.Title: title-cases ASCII letters only; Python's Unicode case rules are left out.
- Text.Lower: lower-cases the ASCII letters and the Latin-1 capitals U+00C0 to U+00DE except U+00D7. Upper-case letters outside Latin-1 are kept as they are.
- CSV and pandas I/O: encodings, the BOM, quoting, `print`, `tqdm` and `display` are left out. A written file is a header row followed by rows of cells.
- ReviewScripts.LoadSchools: reads the rows of the two-column links file, as the ranking step writes it. `csv.DictReader` on files with other layouts (a missing `url` column, short lines) is not modelled.
- SchoolData.ScrappingSchoolData.LoadUrls: `pd.read_csv` is given as the file's lines. A pandas NaN in `alt_url` is not modelled.
- Reviews.CrawlSchool: the source's `while True` has no bound when the site keeps returning 20 cards. We require that some page has fewer than 20 cards, which is exactly the condition under which the source stops.
- Reviews.ScrapeReviews: requires the same of every school's pages.
- Reviews.CrawlSchool: the requested URLs are not collected into a list. Each request's URL is stated by `Reviews.RequestPage`, and the number of requests by `Reviews.LastPage`.
- Review cards are selected by their CSS class. Text nodes are stripped one by one and joined as `get_text(strip=True)` does (`Text.TextOf`), for review cards and criterion rows alike; nested markup inside a text node is not modelled.
- The search-based name resolution and the false-positive table (data/config.py:7-11,16) are left out: no code in the modelled files consults them.
- Visualisation_numerical_data.py, numeric_data__prediction.py and preprocessing.py are not part of this model: they are plotting, machine-learning and pandas cleaning code over the pipeline's output.
- The root scrapping_school_data.py's `display(df)` and its progress lines are left out.
