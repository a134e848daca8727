/**
  `scrape_region` of the clicking scraper: for each format variant, request
  listing pages 1, 2, ... until a page lists no entries or the driver
  raises, open every entry of each page by index, collect the records in
  memory, and write the region's CSV file once at the end, only if some
  record was collected.
 */
module Traversal {
  import opened Wrappers
  import opened Decimal
  import opened Driver
  import opened Extraction

  /** One attempt to click an entry's title. `NativeClick` is the whole
      first step (scroll into view, pause, `element.click()`), whether or not
      it reaches the click itself; `ScriptClick` is the script fallback. */
  datatype Attempt = NativeClick | ScriptClick

  /** The clicks `click_element_safely` made, and whether an exception
      escaped it. */
  datatype ClickOutcome = ClickOutcome(attempts: seq<Attempt>, raised: bool)

  /** `click_element_safely`: a native click, and after an intercepted one a
      single script click, whose failure is the only exception that escapes.
      Any other failure of the first attempt is swallowed. */
  function ClickSafely(first: ClickFirst, scriptClicks: bool): ClickOutcome
  {
    match first
    case Clicked => ClickOutcome([NativeClick], false)
    case ClickFailed => ClickOutcome([NativeClick], false)
    case Intercepted => ClickOutcome([NativeClick, ScriptClick], !scriptClicks)
  }

  /** At most two attempts; the script fallback exactly after an
      interception, never twice; an exception only from a failed fallback. */
  lemma ClickProtocol(first: ClickFirst, scriptClicks: bool)
    ensures var r := ClickSafely(first, scriptClicks);
      && 1 <= |r.attempts| <= 2
      && r.attempts[0] == NativeClick
      && (ScriptClick in r.attempts <==> first == Intercepted)
      && (r.raised <==> first == Intercepted && !scriptClicks)
  {
  }

  /** The records collected so far on a page, and whether an exception
      ended the page (and with it the format variant). */
  datatype Progress = Progress(records: seq<Company>, aborted: bool)

  function RecordOf(r: Option<Company>): seq<Company>
  {
    if r.Some? then [r.value] else []
  }

  /** One entry of the listing: a missing title skips it; a stale title, an
      escaping click exception or a failed `driver.back()` aborts the
      variant (the record, if any, is already in `data`). */
  function RowStep(row: Row): Progress
  {
    match row
    case NoTitle => Progress([], false)
    case StaleTitle => Progress([], true)
    case Title(first, scriptClicks, landing, detail, backOk) =>
      if ClickSafely(first, scriptClicks).raised then Progress([], true)
      else Progress(RecordOf(CompanyRecord(landing, detail)), !backOk)
  }

  /** The entries of one page, in order, up to the first that aborts. */
  function Rows(rows: seq<Row>): Progress
    decreases |rows|
  {
    if rows == [] then Progress([], false)
    else
      var step := RowStep(rows[0]);
      if step.aborted then step
      else
        var rest := Rows(rows[1..]);
        Progress(step.records + rest.records, rest.aborted)
  }

  /** An entry that yields its record and lets the traversal go on. */
  predicate GoodRow(row: Row)
  {
    && row.Title?
    && !ClickSafely(row.first, row.scriptClicks).raised
    && CompanyRecord(row.landing, row.detail).Some?
    && row.backOk
  }

  /** The record a good entry yields. */
  function GoodRecord(row: Row): Company
    requires GoodRow(row)
  {
    CompanyRecord(row.landing, row.detail).value
  }

  /** A page of good entries yields one record per entry, in order. */
  lemma {:induction false} RowsAllGood(rows: seq<Row>)
    requires forall i :: 0 <= i < |rows| ==> GoodRow(rows[i])
    ensures !Rows(rows).aborted && |Rows(rows).records| == |rows|
    ensures forall i :: 0 <= i < |rows| ==> Rows(rows).records[i] == GoodRecord(rows[i])
    decreases |rows|
  {
    if rows != [] {
      GoodRowStep(rows[0]);
      RowsAllGood(rows[1..]);
      var rest := Rows(rows[1..]);
      assert Rows(rows) == Progress([GoodRecord(rows[0])] + rest.records, rest.aborted);
      assert forall i :: 1 <= i < |rows| ==> rows[1..][i - 1] == rows[i];
    }
  }

  lemma GoodRowStep(row: Row)
    requires GoodRow(row)
    ensures RowStep(row) == Progress([GoodRecord(row)], false)
  {
  }

  /** A page never yields more records than it has entries. */
  lemma {:induction false} RowsAtMostOnePerEntry(rows: seq<Row>)
    ensures |Rows(rows).records| <= |rows|
    decreases |rows|
  {
    if rows != [] {
      RowsAtMostOnePerEntry(rows[1..]);
    }
  }

  /** The prefix of every listing URL. */
  const SearchUrl: string := "https://www.pagesjaunes.fr/annuaire/chercherlespros?quoiqui=construction%20piscine&ou="

  /** One listing page request: the format variant and the page number. */
  datatype Visit = Visit(format: string, page: nat)
  {
    /** The URL `driver.get` is called with. */
    function Url(): string
    {
      SearchUrl + format + "&page=" + NatToString(page)
    }
  }

  /** Two requests of one variant have the same URL only for the same page. */
  lemma UrlDeterminesPage(a: Visit, b: Visit)
    requires a.format == b.format && a.Url() == b.Url()
    ensures a.page == b.page
  {
    var k := |SearchUrl + a.format + "&page="|;
    assert a.Url()[k..] == NatToString(a.page);
    assert b.Url()[k..] == NatToString(b.page);
    NatToStringInjective(a.page, b.page);
  }

  /** What a stretch of the traversal produced: records and listing requests. */
  datatype Trace = Trace(records: seq<Company>, visits: seq<Visit>)
  {
    function Then(next: Trace): Trace
    {
      Trace(records + next.records, visits + next.visits)
    }
  }

  lemma ThenAssociative(a: Trace, b: Trace, c: Trace)
    ensures a.Then(b).Then(c) == a.Then(b.Then(c))
  {
    assert (a.records + b.records) + c.records == a.records + (b.records + c.records);
    assert (a.visits + b.visits) + c.visits == a.visits + (b.visits + c.visits);
  }

  /** What one listing page contributes, and whether the variant's loop
      goes on to the next page: it does when the page lists entries and
      none of them raised out of the entry loop. */
  datatype PageStep = PageStep(records: seq<Company>, goesOn: bool)

  function PageResult(site: Site, format: string, page: nat): (r: PageStep)
    ensures r.goesOn ==> 1 <= page <= |site.results(format)|
  {
    match Load(site, format, page)
    case PageFailed => PageStep([], false)
    case Listing(rows) => PageStep(Rows(rows).records, rows != [] && !Rows(rows).aborted)
  }

  /** The `while True` loop of one format variant, from page `page` on. */
  function Walk(site: Site, format: string, page: nat): Trace
    requires page >= 1
    decreases |site.results(format)| + 1 - page
  {
    var step := PageResult(site, format, page);
    var here := Trace(step.records, [Visit(format, page)]);
    if step.goesOn then here.Then(Walk(site, format, page + 1)) else here
  }

  /** `scrape_region`'s loops over all format variants, in order. */
  function RegionTrace(site: Site, formats: seq<string>): Trace
    decreases |formats|
  {
    if formats == [] then Trace([], [])
    else Walk(site, formats[0], 1).Then(RegionTrace(site, formats[1..]))
  }

  /** The pagination of a variant goes past page `page`. */
  predicate Continues(site: Site, format: string, page: nat)
  {
    PageResult(site, format, page).goesOn
  }

  /** The first page, from `page` on, past which the variant does not go. */
  function StopPage(site: Site, format: string, page: nat): (stop: nat)
    requires page >= 1
    ensures stop >= page
    decreases |site.results(format)| + 1 - page
  {
    if Continues(site, format, page) then StopPage(site, format, page + 1) else page
  }

  lemma {:induction false} StopPageSpec(site: Site, format: string, page: nat)
    requires page >= 1
    ensures forall k :: page <= k < StopPage(site, format, page) ==> Continues(site, format, k)
    ensures !Continues(site, format, StopPage(site, format, page))
    decreases |site.results(format)| + 1 - page
  {
    if Continues(site, format, page) {
      StopPageSpec(site, format, page + 1);
    }
  }

  /** The requests `Visit(format, lo)`, ..., `Visit(format, hi)`. */
  function PageRange(format: string, lo: nat, hi: nat): seq<Visit>
    requires lo <= hi + 1
  {
    seq(hi + 1 - lo, i requires 0 <= i < hi + 1 - lo => Visit(format, lo + i))
  }

  /** One step of a variant's walk. */
  lemma WalkStep(site: Site, format: string, page: nat)
    requires page >= 1
    ensures Continues(site, format, page) ==>
              Walk(site, format, page) ==
              Trace(PageRecords(site, format, page), [Visit(format, page)])
                .Then(Walk(site, format, page + 1))
    ensures !Continues(site, format, page) ==> Walk(site, format, page).visits == [Visit(format, page)]
    ensures !Continues(site, format, page) ==> Walk(site, format, page).records == PageRecords(site, format, page)
    ensures Continues(site, format, page) ==>
              Walk(site, format, page).records ==
              PageRecords(site, format, page) + Walk(site, format, page + 1).records
  {
  }

  lemma PageRangeCons(format: string, lo: nat, hi: nat)
    requires lo <= hi
    ensures PageRange(format, lo, hi) == [Visit(format, lo)] + PageRange(format, lo + 1, hi)
  {
    var tail := PageRange(format, lo + 1, hi);
    assert forall i :: 1 <= i < 1 + |tail| ==> ([Visit(format, lo)] + tail)[i] == tail[i - 1];
  }

  lemma PageRangeOne(format: string, p: nat)
    ensures PageRange(format, p, p) == [Visit(format, p)]
  {
  }

  /** A variant's requests are the contiguous pages from `page` up to its
      stop page: one request per page, ending exactly at the first page that
      lists nothing, raises, or aborts in its entry loop. */
  lemma {:induction false} WalkVisits(site: Site, format: string, page: nat)
    requires page >= 1
    ensures Walk(site, format, page).visits == PageRange(format, page, StopPage(site, format, page))
    decreases |site.results(format)| + 1 - page
  {
    WalkStep(site, format, page);
    var stop := StopPage(site, format, page);
    if Continues(site, format, page) {
      WalkVisits(site, format, page + 1);
      assert stop == StopPage(site, format, page + 1);
      PageRangeCons(format, page, stop);
    } else {
      PageRangeOne(format, page);
    }
  }

  /** The records one listing page contributes. */
  function PageRecords(site: Site, format: string, page: nat): seq<Company>
  {
    PageResult(site, format, page).records
  }

  /** The records of pages `lo` to `hi`, in page order. */
  function RecordsOfPages(site: Site, format: string, lo: nat, hi: nat): seq<Company>
    requires lo <= hi + 1
    decreases hi + 1 - lo
  {
    if lo > hi then [] else PageRecords(site, format, lo) + RecordsOfPages(site, format, lo + 1, hi)
  }

  /** A variant's records are those of its pages up to the stop page, in
      page order, that page's partial records included. */
  lemma {:induction false} WalkRecords(site: Site, format: string, page: nat)
    requires page >= 1
    ensures Walk(site, format, page).records ==
            RecordsOfPages(site, format, page, StopPage(site, format, page))
    decreases |site.results(format)| + 1 - page
  {
    WalkStep(site, format, page);
    var stop := StopPage(site, format, page);
    if Continues(site, format, page) {
      WalkRecords(site, format, page + 1);
      assert stop == StopPage(site, format, page + 1);
      RecordsOfPagesCons(site, format, page, stop);
    } else {
      RecordsOfOnePage(site, format, page);
    }
  }

  lemma RecordsOfPagesCons(site: Site, format: string, lo: nat, hi: nat)
    requires lo <= hi
    ensures RecordsOfPages(site, format, lo, hi) ==
            PageRecords(site, format, lo) + RecordsOfPages(site, format, lo + 1, hi)
  {
  }

  lemma RecordsOfOnePage(site: Site, format: string, p: nat)
    ensures RecordsOfPages(site, format, p, p) == PageRecords(site, format, p)
  {
    assert RecordsOfPages(site, format, p + 1, p) == [];
  }

  /** The requests of all variants: each variant's pages 1 to its stop page,
      variant after variant; the page number restarts at 1 for each. */
  function VariantPages(site: Site, formats: seq<string>): seq<Visit>
    decreases |formats|
  {
    if formats == [] then []
    else
      StopPageSpec(site, formats[0], 1);
      PageRange(formats[0], 1, StopPage(site, formats[0], 1)) + VariantPages(site, formats[1..])
  }

  lemma {:induction false} RegionVisits(site: Site, formats: seq<string>)
    ensures RegionTrace(site, formats).visits == VariantPages(site, formats)
    decreases |formats|
  {
    if formats != [] {
      WalkVisits(site, formats[0], 1);
      RegionVisits(site, formats[1..]);
    }
  }

  /** The formats requested are the region's variants, nothing else. */
  lemma {:induction false} RegionVisitsFormats(site: Site, formats: seq<string>)
    ensures forall v :: v in RegionTrace(site, formats).visits ==> v.format in formats && v.page >= 1
    decreases |formats|
  {
    if formats != [] {
      WalkVisits(site, formats[0], 1);
      RegionVisitsFormats(site, formats[1..]);
    }
  }

  /** When the two variants coincide (a region name without spaces), the
      region is traversed twice and its records come in two equal halves. */
  lemma SameVariantTwice(site: Site, format: string)
    ensures RegionTrace(site, [format, format]).records ==
            Walk(site, format, 1).records + Walk(site, format, 1).records
  {
    assert [format, format][1..] == [format];
    assert [format][1..] == [];
    assert RegionTrace(site, [format]).records == Walk(site, format, 1).records;
  }

  /** The file `scrape_region` writes, under its name in the output folder. */
  datatype Written = Written(fileName: string, csv: CsvFile)

  /** `if data:` write `<region_name>.csv`; otherwise write nothing. */
  function SavedFile(regionName: string, data: seq<Company>): Option<Written>
  {
    if data == [] then None else Some(Written(regionName + ".csv", CompanyCsv(data)))
  }

  /** The `for index, company in enumerate(company_list)` loop of one
      listing page: the records it appends to `data`, and whether a driver
      exception left the loop (it reaches the page-level handler, which ends
      the variant). */
  method ScrapeEntries(rows: seq<Row>, data: seq<Company>) returns (updated: seq<Company>, aborted: bool)
    ensures updated == data + Rows(rows).records
    ensures aborted == Rows(rows).aborted
  {
    updated, aborted := data, false;
    for j := 0 to |rows|
      invariant updated + Rows(rows[j..]).records == data + Rows(rows).records
      invariant Rows(rows[j..]).aborted == Rows(rows).aborted
    {
      assert rows[j..][0] == rows[j] && rows[j..][1..] == rows[j + 1..];
      match rows[j]
      case NoTitle =>
      case StaleTitle =>
        aborted := true;
        break;
      case Title(first, scriptClicks, landing, detail, backOk) =>
        var click := ClickSafely(first, scriptClicks);
        if click.raised {
          aborted := true;
          break;
        }
        updated := ScrapeCompanyInfo(landing, detail, updated);
        if !backOk {
          aborted := true;
          break;
        }
    }
  }

  /** The `while True` loop of one format variant: `page` starts at 1 and
      goes up by one after each page whose entries were all gone through;
      the loop ends at an empty listing or a driver exception. */
  method ScrapeVariant(site: Site, format: string, data: seq<Company>, visits: seq<Visit>)
      returns (data': seq<Company>, visits': seq<Visit>)
    ensures Trace(data', visits') == Trace(data, visits).Then(Walk(site, format, 1))
  {
    data', visits' := data, visits;
    var page := 1;
    while true
      invariant page >= 1
      invariant Trace(data', visits').Then(Walk(site, format, page)) == Trace(data, visits).Then(Walk(site, format, 1))
      decreases |site.results(format)| + 1 - page
    {
      ghost var before := Trace(data', visits');
      var here := [Visit(format, page)];
      visits' := visits' + here;
      var listing := Load(site, format, page);
      if listing.PageFailed? {
        assert Walk(site, format, page) == Trace([], here);
        assert Trace(data', visits') == before.Then(Trace([], here));
        break;
      }
      var rows := listing.rows;
      if rows == [] {
        assert Walk(site, format, page) == Trace([], here);
        assert Trace(data', visits') == before.Then(Trace([], here));
        break;
      }
      var aborted;
      data', aborted := ScrapeEntries(rows, data');
      ghost var step := Trace(Rows(rows).records, here);
      assert Trace(data', visits') == before.Then(step);
      if aborted {
        assert Walk(site, format, page) == step;
        break;
      }
      assert Walk(site, format, page) == step.Then(Walk(site, format, page + 1));
      ThenAssociative(before, step, Walk(site, format, page + 1));
      page := page + 1;
    }
  }

  /** `scrape_region(region_name, region_formats)`: the records it collects,
      the listing pages it requests, and the file it writes. */
  method ScrapeRegion(site: Site, regionName: string, formats: seq<string>)
      returns (data: seq<Company>, visits: seq<Visit>, saved: Option<Written>)
    ensures Trace(data, visits) == RegionTrace(site, formats)
    ensures saved == SavedFile(regionName, data)
  {
    data, visits := [], [];
    for i := 0 to |formats|
      invariant Trace(data, visits).Then(RegionTrace(site, formats[i..])) == RegionTrace(site, formats)
    {
      ghost var done := Trace(data, visits);
      ghost var variant := Walk(site, formats[i], 1);
      ghost var rest := RegionTrace(site, formats[i + 1..]);
      assert formats[i..][1..] == formats[i + 1..];
      assert RegionTrace(site, formats[i..]) == variant.Then(rest);
      data, visits := ScrapeVariant(site, formats[i], data, visits);
      ThenAssociative(done, variant, rest);
    }
    assert formats[|formats|..] == [];
    if data != [] {
      saved := Some(Written(regionName + ".csv", CompanyCsv(data)));
    } else {
      saved := None;
    }
  }
}
