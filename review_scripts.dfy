/** The two review scripts: data/scrapper.py crawls the schools listed in
    the links CSV that the ranking extraction writes, the root
    scrapper.py crawls three hard-coded schools. Both run the crawl of
    the Reviews module and write the records with pandas. */
module ReviewScripts {
  import opened Text
  import opened Ranking
  import opened Reviews

  /** The file data/scrapper.py writes. */
  const TEXTUAL_DATASET := "textual_dataset.csv"
  /** The file the root scrapper.py writes. */
  const DATASET := "dataset.csv"

  /** The `ecoles` list of the root scrapper.py. */
  const ECOLES: seq<string> := [
    "https://www.letudiant.fr/etudes/annuaire-enseignement-superieur/etablissement/etablissement-hetic-la-grande-ecole-du-web-7868.html",
    "https://www.letudiant.fr/etudes/annuaire-enseignement-superieur/etablissement/etablissement-ecole-d-ingenieurs-du-monde-numerique-9712.html",
    "https://www.letudiant.fr/etudes/annuaire-enseignement-superieur/etablissement/etablissement-ecole-d-ingenieurs-du-cesi-centre-de-rouen-mont-saint-aignan-70411.html"
  ]

  // ---------------------------------------------------------------------
  // data/scrapper.py

  /** The `url` column of the links CSV, line by line. */
  function SchoolUrls(rows: seq<Row>): (us: seq<string>)
    ensures |us| == |rows| && forall i :: 0 <= i < |rows| ==> us[i] == rows[i].url
  {
    seq(|rows|, i requires 0 <= i < |rows| => rows[i].url)
  }

  /** The loop over the `csv.DictReader` lines: one base URL per line, in
      file order, duplicates kept. */
  method LoadSchools(rows: seq<Row>) returns (ecoles: seq<string>)
    ensures ecoles == SchoolUrls(rows)
  {
    ecoles := [];
    for i := 0 to |rows|
      invariant |ecoles| == i && forall j :: 0 <= j < i ==> ecoles[j] == rows[j].url
    {
      ecoles := ecoles + [rows[i].url];
    }
  }

  /** Reading back the file the ranking extraction writes gives the base
      URLs of its rows, in ranking order. */
  lemma LinksFileSchools(rows: seq<Row>)
    ensures SchoolUrls(RowsFromCsv(RankingCsv(rows))) == SchoolUrls(rows)
  {
    RankingCsvRoundTrip(rows);
  }

  /** data/scrapper.py on the lines `rows` of the links CSV: the records
      of every listed school in file order, and the CSV written from
      them. */
  method TextualDataset(rows: seq<Row>, fetch: string -> seq<Card>) returns (avis: seq<Review>, csv: seq<seq<string>>)
    requires AllEnd(fetch, SchoolUrls(rows))
    ensures avis == AllReviews(fetch, SchoolUrls(rows))
    ensures csv == ReviewCsv(avis)
  {
    var ecoles := LoadSchools(rows);
    avis := ScrapeReviews(ecoles, fetch);
    var _, written := ExportReviews(avis);
    csv := written;
  }

  /** Every record of the textual dataset comes from a line of the links
      CSV: its `url` is that line's URL and its `ecole` the name derived
      from it. */
  lemma TextualDatasetFromLinks(rows: seq<Row>, fetch: string -> seq<Card>)
    requires AllEnd(fetch, SchoolUrls(rows))
    ensures forall r :: r in AllReviews(fetch, SchoolUrls(rows)) ==>
      (exists i :: 0 <= i < |rows| && rows[i].url == r.url) && r.ecole == SchoolName(r.url)
  {
    var us := SchoolUrls(rows);
    AllReviewsFromSchools(fetch, us);
    forall u | u in us ensures exists i :: 0 <= i < |rows| && rows[i].url == u {
      var i :| 0 <= i < |us| && us[i] == u;
      assert rows[i].url == u;
    }
  }

  // ---------------------------------------------------------------------
  // scrapper.py

  /** The root scrapper.py: the same crawl over the three hard-coded
      schools, in list order. */
  method Dataset(fetch: string -> seq<Card>) returns (avis: seq<Review>, csv: seq<seq<string>>)
    requires AllEnd(fetch, ECOLES)
    ensures avis == AllReviews(fetch, ECOLES)
    ensures csv == ReviewCsv(avis)
  {
    var ecoles := ECOLES;
    avis := ScrapeReviews(ecoles, fetch);
    var _, written := ExportReviews(avis);
    csv := written;
  }

  /** Every record of the root dataset belongs to one of the three
      schools, under the name derived from its URL. */
  lemma DatasetSchools(fetch: string -> seq<Card>)
    requires AllEnd(fetch, ECOLES)
    ensures forall r :: r in AllReviews(fetch, ECOLES) ==>
      r.url in ECOLES && r.ecole == SchoolName(r.url)
  {
    AllReviewsFromSchools(fetch, ECOLES);
  }
}
