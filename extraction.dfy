/**
  `scrape_company_info` of the clicking scraper: the record read from one
  company's detail page, and the CSV layout the region file uses.
 */
module Extraction {
  import opened Wrappers
  import opened Text
  import opened Driver

  /** One scraped company: the dictionary appended to `data`, whose keys are
      the seven columns below, in this order. */
  datatype Company = Company(
    name: string, phone: string, category: string, address: string,
    place: string, web: string, url: string)

  const CompanyColumns: seq<string> := ["Name", "Phone", "Category", "Address", "Place", "Web", "URL"]

  /** Written in place of an empty or missing address. */
  const NoAddress: string := "No disponible"

  /** Separator between the texts of the web links. */
  const WebSeparator: string := " / "

  /** The CSV cells of a record, in column order. */
  function Cells(c: Company): seq<string>
  {
    [c.name, c.phone, c.category, c.address, c.place, c.web, c.url]
  }

  /** A CSV file written in one go: a header row and the data rows. */
  datatype CsvFile = CsvFile(header: seq<string>, rows: seq<seq<string>>)

  /** `pd.DataFrame(data).to_csv(...)` for a list of company records. */
  function CompanyCsv(data: seq<Company>): CsvFile
  {
    CsvFile(CompanyColumns, seq(|data|, i requires 0 <= i < |data| => Cells(data[i])))
  }

  /** The file holds the seven column names, then one row per record, with
      each row's cells lined up under the header. */
  lemma CompanyCsvShape(data: seq<Company>)
    ensures CompanyCsv(data).header == CompanyColumns
    ensures |CompanyCsv(data).rows| == |data|
    ensures forall i :: 0 <= i < |data| ==>
              |CompanyCsv(data).rows[i]| == |CompanyColumns| &&
              CompanyCsv(data).rows[i][6] == data[i].url
  {
  }

  /** `extract_text_by_selector`: a missing element reads as the empty
      string; any other driver exception escapes (`None`). */
  function ExtractText(l: Lookup): Option<string>
  {
    match l
    case Found(t) => Some(t)
    case NotFound => Some("")
    case Raised => None
  }

  /** No step of `scrape_company_info` raises: the page loads and every
      lookup either finds its element or finds it missing. */
  predicate Readable(page: DetailPage)
  {
    page.loads && !page.heading.Raised? && !page.phoneHref.Raised? &&
    !page.category.Raised? && !page.address.Raised? && !page.location.Raised? &&
    page.webLinks.LinkTexts?
  }

  /** The record `scrape_company_info(url, data)` appends for a detail page,
      or `None` when an exception reaches its `except Exception` handler. */
  function CompanyRecord(url: string, page: DetailPage): Option<Company>
  {
    if !Readable(page) then None
    else
      var address := FieldText(page.address);
      Some(Company(ProcessName(FieldText(page.heading)), StripTelPrefix(FieldText(page.phoneHref)),
                   FieldText(page.category), if address == "" then NoAddress else address,
                   ProcessPlace(FieldText(page.location)), Join(WebSeparator, page.webLinks.texts),
                   url))
  }

  /** A record is produced exactly when the page loads and no lookup raises
      anything other than a missing element. */
  lemma CompanyRecordAllOrNothing(url: string, page: DetailPage)
    ensures CompanyRecord(url, page).Some? <==>
            page.loads && !page.heading.Raised? && !page.phoneHref.Raised? &&
            !page.category.Raised? && !page.address.Raised? && !page.location.Raised? &&
            page.webLinks.LinkTexts?
  {
  }

  /** The fields of a produced record: the URL is the one visited, the
      address is never empty, a missing element reads as the empty string,
      the name goes through `process_name`, the phone loses its `tel:` scheme and the web
      field joins the link texts. */
  lemma CompanyRecordFields(url: string, page: DetailPage)
    requires CompanyRecord(url, page).Some?
    ensures var c := CompanyRecord(url, page).value;
      && c.url == url
      && c.address != ""
      && (page.address.Found? && page.address.text != "" ==> c.address == page.address.text)
      && (page.address.NotFound? || page.address == Found("") ==> c.address == NoAddress)
      && (page.heading.Found? ==> c.name == ProcessName(page.heading.text))
      && Stripped(c.name) && '\\' !in c.name
      && (page.heading.Found? && '\\' !in page.heading.text ==> '\n' !in c.name)
      && (page.heading.NotFound? ==> c.name == "")
      && (page.phoneHref.NotFound? ==> c.phone == "")
      && (page.phoneHref.Found? && StartsWith(page.phoneHref.text, "tel:") ==>
            "tel:" + c.phone == page.phoneHref.text)
      && (page.phoneHref.Found? && !StartsWith(page.phoneHref.text, "tel:") ==>
            c.phone == page.phoneHref.text)
      && (page.category.Found? ==> c.category == page.category.text)
      && (page.category.NotFound? ==> c.category == "")
      && (page.location.Found? ==> c.place == ProcessPlace(page.location.text))
      && (page.location.NotFound? ==> c.place == "")
      && c.web == Join(WebSeparator, page.webLinks.texts)
  {
    ProcessNameShape(FieldText(page.heading));
    StripTelPrefixSpec(FieldText(page.phoneHref));
    if page.location.NotFound? {
      assert ReplaceAll("", PlaceLabel, "") == "";
    }
  }

  /** With link texts free of slashes, the web field holds one slash per
      separator: none for no link, `n - 1` for `n` links. */
  lemma CompanyRecordWebSeparators(url: string, page: DetailPage)
    requires CompanyRecord(url, page).Some?
    requires forall i :: 0 <= i < |page.webLinks.texts| ==> '/' !in page.webLinks.texts[i]
    ensures page.webLinks.texts == [] ==> CompanyRecord(url, page).value.web == ""
    ensures Count('/', CompanyRecord(url, page).value.web) ==
            if page.webLinks.texts == [] then 0 else |page.webLinks.texts| - 1
  {
    JoinSeparators(page.webLinks.texts);
  }

  /** `scrape_company_info(url, data)`: load the page, read the fields one
      after the other, and append the record to `data` unless an exception
      cut the sequence short. */
  method ScrapeCompanyInfo(url: string, page: DetailPage, data: seq<Company>)
      returns (updated: seq<Company>)
    ensures CompanyRecord(url, page).Some? ==> updated == data + [CompanyRecord(url, page).value]
    ensures CompanyRecord(url, page).None? ==> updated == data
  {
    updated := data;
    if !page.loads {
      return;
    }
    var heading := ExtractText(page.heading);
    if heading.None? {
      return;
    }
    var name := ProcessName(heading.value);
    var phone := ExtractText(page.phoneHref);
    if phone.None? {
      return;
    }
    var number := phone.value;
    if number != "" && StartsWith(number, "tel:") {
      number := number[4..];
    }
    var category := ExtractText(page.category);
    if category.None? {
      return;
    }
    var address := ExtractText(page.address);
    if address.None? {
      return;
    }
    var street := if address.value != "" then address.value else NoAddress;
    var location := ExtractText(page.location);
    if location.None? {
      return;
    }
    var place := ProcessPlace(location.value);
    if page.webLinks.LinksRaised? {
      return;
    }
    var web := Join(WebSeparator, page.webLinks.texts);
    assert Readable(page);
    assert name == ProcessName(FieldText(page.heading));
    assert number == StripTelPrefix(FieldText(page.phoneHref));
    assert street == (if FieldText(page.address) == "" then NoAddress else FieldText(page.address));
    assert place == ProcessPlace(FieldText(page.location));
    updated := data + [Company(name, number, category.value, street, place, web, url)];
  }
}
