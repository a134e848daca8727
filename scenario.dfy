/**
  A worked run of the clicking scraper on a small site: region
  "La Reunion", whose `+` variant has a page of three entries followed by an
  empty page, and whose `-` variant has a single page of one entry.
 */
module Scenario {
  import opened Wrappers
  import opened Driver
  import opened Extraction
  import opened Traversal
  import opened Regions

  /** A detail page on which every field is present. */
  const Detail: DetailPage := DetailPage(
    true, Found("Piscines Bourbon"), Found("tel:0262000000"), Found("Construction"),
    Found("1 rue A"), Found("Piscine à Saint-Denis"), LinkTexts(["bourbon.re"]))

  /** An entry whose click, extraction and return all succeed. */
  const Entry: Row := Title(Clicked, true, "https://www.pagesjaunes.fr/pros/1", Detail, true)

  /** The listing pages the site serves for each search format. */
  function ReunionPages(entry: Row, format: string): seq<PageLoad>
  {
    if format == "La+Reunion" then [Listing([entry, entry, entry]), Listing([])]
    else if format == "La-Reunion" then [Listing([entry])]
    else []
  }

  lemma ReunionPagesSpec(entry: Row)
    ensures ReunionSite(entry).results("La+Reunion") == [Listing([entry, entry, entry]), Listing([])]
    ensures ReunionSite(entry).results("La-Reunion") == [Listing([entry])]
  {
    assert "La-Reunion" != "La+Reunion" by {
      assert "La-Reunion"[2] != "La+Reunion"[2];
    }
  }

  /** The site, with every entry alike. */
  function ReunionSite(entry: Row): Site
  {
    Site(f => ReunionPages(entry, f))
  }

  lemma EntryIsGood()
    ensures GoodRow(Entry)
  {
    assert Readable(Detail);
  }

  /** The `+` variant: three records from page 1, then page 2 is empty. */
  lemma FirstVariant(entry: Row)
    requires GoodRow(entry)
    ensures var r := GoodRecord(entry);
      Walk(ReunionSite(entry), "La+Reunion", 1) ==
        Trace([r, r, r], [Visit("La+Reunion", 1), Visit("La+Reunion", 2)])
  {
    var site := ReunionSite(entry);
    var r := GoodRecord(entry);
    RowsAllGood([entry, entry, entry]);
    assert Rows([entry, entry, entry]) == Progress([r, r, r], false);
    ReunionPagesSpec(entry);
    assert Load(site, "La+Reunion", 1) == Listing([entry, entry, entry]);
    assert Load(site, "La+Reunion", 2) == Listing([]);
    assert Walk(site, "La+Reunion", 2) == Trace([], [Visit("La+Reunion", 2)]);
    assert Walk(site, "La+Reunion", 1) ==
      Trace([r, r, r], [Visit("La+Reunion", 1)]).Then(Walk(site, "La+Reunion", 2));
  }

  /** The `-` variant: one record from page 1, then page 2 lies past the
      last page the site serves and lists nothing. */
  lemma SecondVariant(entry: Row)
    requires GoodRow(entry)
    ensures var r := GoodRecord(entry);
      Walk(ReunionSite(entry), "La-Reunion", 1) ==
        Trace([r], [Visit("La-Reunion", 1), Visit("La-Reunion", 2)])
  {
    var site := ReunionSite(entry);
    ReunionPagesSpec(entry);
    RowsAllGood([entry]);
    assert Load(site, "La-Reunion", 1) == Listing([entry]);
    assert Load(site, "La-Reunion", 2) == Listing([]);
    assert Walk(site, "La-Reunion", 2) == Trace([], [Visit("La-Reunion", 2)]);
  }

  /** Four records, and four listing requests: pages 1 and 2 of the first
      variant, and pages 1 and 2 of the second, whose page 2 is requested to
      find it empty. */
  lemma ReunionTrace(entry: Row)
    requires GoodRow(entry)
    ensures var r := GoodRecord(entry);
      RegionTrace(ReunionSite(entry), Variants("La Reunion")) ==
        Trace([r, r, r, r], [Visit("La+Reunion", 1), Visit("La+Reunion", 2),
                             Visit("La-Reunion", 1), Visit("La-Reunion", 2)])
  {
    var site := ReunionSite(entry);
    var r := GoodRecord(entry);
    var plus, minus := "La+Reunion", "La-Reunion";
    LaReunionVariants();
    FirstVariant(entry);
    SecondVariant(entry);
    var v := [plus, minus];
    assert v[1..] == [minus] && [minus][1..] == [];
    var w1, w2 := Walk(site, plus, 1), Walk(site, minus, 1);
    assert RegionTrace(site, [minus]) == w2.Then(Trace([], []));
    assert RegionTrace(site, v) == w1.Then(w2.Then(Trace([], [])));
    assert w1.records + (w2.records + []) == [r, r, r, r];
    assert w1.visits + (w2.visits + []) ==
           [Visit(plus, 1), Visit(plus, 2), Visit(minus, 1), Visit(minus, 2)];
  }

  /** With no file yet, the run writes the region's file once, after both
      variants, holding the header and the four rows. */
  lemma ReunionRun(entry: Row)
    requires GoodRow(entry)
    ensures var t := RegionTrace(ReunionSite(entry), Variants("La Reunion"));
      && Run(ReunionSite(entry), ["La Reunion"], []).writes ==
           [Written(RegionName("La Reunion") + ".csv", CompanyCsv(t.records))]
      && CompanyCsv(t.records).header == CompanyColumns
      && |CompanyCsv(t.records).rows| == 4
  {
    ReunionTrace(entry);
    ScrapedRegion(ReunionSite(entry), "La Reunion", []);
    assert ["La Reunion"][1..] == [];
    CompanyCsvShape(RegionTrace(ReunionSite(entry), Variants("La Reunion")).records);
  }
}
