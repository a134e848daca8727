# Verified model of the pool-builder directory scrapers

This project models the logic of two Selenium scrapers that collect swimming-pool
builders from online business directories. The browser itself is not modelled: it is
an oracle that answers each call the scripts make.

- **The clicking scraper** (`scraping/scraping_clicking.py`) covers four overseas French
  regions. It skips a region whose CSV file already exists, and otherwise scrapes the
  region through two spellings of its name (spaces as `+`, spaces as `-`). For each
  spelling it walks the result pages from page 1 until a page lists nothing or the
  driver fails. On each page it clicks every entry, reads the company's detail page and
  goes back. It keeps all the records of a region in memory and writes
  `<region>.csv` once, at the end, when there is at least one record.
- **The scrolling scraper** (`scraping_scroll.py`) reads one company entry from a loaded
  detail page. It keeps the entry only when all five lookups succeed. Each entry is
  appended to `data` and at once appended to a single CSV file. That file is created
  with a header by the first save. The script's main block only loads the search page
  and never calls these two functions; the model covers them as written.

Files and modules:

| file | module | contents |
|---|---|---|
| `wrappers.dfy` | `Wrappers` | `Option` |
| `text.dfy` | `Text` | Python `strip`, `split(c)[0]`, `replace`, `startswith`, `join`; `process_name`, `process_place_from_location`, the `tel:` prefix |
| `decimal.dfy` | `Decimal` | decimal rendering of the page number and of the `Index` cell, with its parser |
| `driver.dfy` | `Driver` | the browser as data: lookups, detail pages, listing rows, the search site |
| `extraction.dfy` | `Extraction` | the clicking scraper's `scrape_company_info` and its CSV layout |
| `traversal.dfy` | `Traversal` | `click_element_safely`, the entry loop, the `while True` pagination, `scrape_region` |
| `regions.dfy` | `Regions` | `existing_files`, region identity and variants, the region loop |
| `scenario.dfy` | `Scenario` | a worked run of `La Reunion` on a small site: two variants, four records, four requests |
| `scroll.dfy` | `Scroll` | the scrolling scraper: `save_data_to_csv`, `scrape_company_info`, the file they grow |

How the browser is represented:

- A lookup (`find_element` followed by `.text` or `get_attribute`) yields one of three
  results. `Found(text)` when the element is there; `NotFound` for
  `NoSuchElementException`; `Raised` for any other driver exception.
- The site maps each format variant to its list of result pages. Every page past the
  end lists nothing, which is what makes the pagination end.
- Every page request is recorded as a `Visit`; every file written is recorded as a
  `Written`.
- Each loop of the source is a method with its invariant: the entry loop, the page
  loop, the variant loop and the region loop. Each method is proved equal to a
  recursive specification function. The lemmas state what the source promises about
  those functions.

In these places the code behaves in ways a reader may not expect:

- The skip test only asks whether a `.csv` file of that stem is listed in the output
  folder. It does not check that the file holds any data
  (`scraping/scraping_clicking.py:27`, `201`).
- The clicking scraper buffers a whole region and writes its file once
  (`scraping/scraping_clicking.py:186-191`). Per-record appending exists only in the
  scrolling scraper.
- Exceptions in the clicking scraper's entry loop:
  - Only `NoSuchElementException` from the title lookup skips an entry.
  - A stale title, a failed script click after an intercepted click, a failed read of
    `driver.current_url` or a failed `driver.back()` leaves the entry loop for the
    page-level `except WebDriverException`.
    That ends the whole variant, not only the entry (`Traversal.RowStep`).
  - The records collected before that point are kept.
- Inside the clicking `scrape_company_info`, `except Exception` catches everything. Any
  exception there drops that one record and nothing else. An empty or missing address
  becomes `"No disponible"`.
- The scrolling scraper drops the whole entry on the first missing element. Any other
  exception leaves the function (`Scroll.ScrollEntryOutcome`).
- After a variant's last page with entries, the next page is still requested, to find
  it empty. Variants with pages [3 entries, empty] and [1 entry] thus give 4 records
  and 4 listing requests (`Scenario.ReunionTrace`).
- The two variants of a name without spaces are equal. Such a region is traversed
  twice, and, when the site answers both traversals alike, its records come in two equal
  halves (`Regions.VariantsWithoutSpace`,
  `Traversal.SameVariantTwice`). This holds for three of the four configured regions
  (`Regions.ConfiguredVariants`).
- The stems are read once, before the region loop. A region listed twice would be
  scraped twice in one run (`Regions.StemsReadOnce`).
- The driver session is never re-initialised after an error.

## Model

| member | source | states |
|---|---|---|
| Text.TrimLeftSpec | scraping/scraping_clicking.py:96 | the left part of `strip()` drops exactly the leading whitespace: the result is a suffix whose first character is not whitespace, and everything dropped is whitespace |
| Text.TrimRightSpec | scraping/scraping_clicking.py:96 | the right part of `strip()` drops exactly the trailing whitespace, symmetrically |
| Text.StripSlice | scraping/scraping_clicking.py:93-96 | `strip()` returns a slice `s[i..j]` with no whitespace at either end, and only whitespace lies outside it |
| Text.StripChars | scraping/scraping_clicking.py:93-96 | stripping never introduces a character that was not in the input |
| Text.StripFixed | scraping/scraping_clicking.py:96 | a string with no whitespace at its ends is its own `strip()` |
| Text.StripIdempotent | scraping/scraping_clicking.py:96 | `strip()` applied twice equals `strip()` applied once |
| Text.CutAtSpec | scraping/scraping_clicking.py:93-95 | `split(c)[0]` is the longest prefix without `c`: it never contains `c`, stops just before the first `c`, and is the whole string when `c` is absent |
| Text.ProcessNameShape | scraping/scraping_clicking.py:88-96 | `process_name` returns a string without whitespace at either end and never containing a backslash; without a backslash in the input, the result holds no newline |
| Text.ProcessNameIdempotentIff | scraping/scraping_clicking.py:88-96 | `process_name` is idempotent on an input exactly when its result holds no newline (both directions) |
| Text.ProcessNameKeepsNewline | scraping/scraping_clicking.py:92-95 | the input `"A\nB\\C"` gives `"A\nB"`, which still holds a newline, and a second pass gives `"A"` |
| Text.CleanNameShape | scraping/scraping_clicking.py:88-96 | the corrected cleanup returns a string with no whitespace at its ends, no backslash and no newline |
| Text.CleanNameIdempotent | scraping/scraping_clicking.py:88-96 | the corrected cleanup is idempotent on every input |
| Text.CleanNameAgrees | scraping/scraping_clicking.py:88-96 | the corrected cleanup equals `process_name` except when a newline comes before the first backslash |
| Text.StripTelPrefixSpec | scraping/scraping_clicking.py:121-122 | a phone value that starts with `tel:` loses exactly those four characters; any other value (the empty one included) is unchanged |
| Text.StripTelPrefixInverse | scraping/scraping_clicking.py:121-122 | prefixing `tel:` then normalising gives the number back |
| Text.ReplaceAbsent | scraping/scraping_clicking.py:102 | `replace` leaves a string without an occurrence of the pattern unchanged |
| Text.ReplaceChar | scraping/scraping_clicking.py:200 | replacing one character by another acts position by position and keeps the length |
| Text.ReplaceCharAppend | scraping/scraping_clicking.py:200 | replacing a single character distributes over concatenation |
| Text.ReplaceCharSplit | scraping_scroll.py:103 | a text cut at its first occurrence of the character is replaced piece by piece: the part before is kept, the character becomes the replacement, the rest is replaced in turn |
| Text.ReplaceCharIsJoin | scraping_scroll.py:103 | replacing a single character equals splitting at it and joining the pieces with the replacement, as `rep.join(s.split(c))` |
| Text.ReplaceCharAbsent | scraping_scroll.py:103 | replacing a character that does not occur leaves the string unchanged |
| Text.ReplaceCharGone | scraping_scroll.py:103 | replacing a character by a string without it removes every occurrence, and the length grows by `|rep| - 1` per occurrence |
| Text.ProcessPlaceWithoutLabel | scraping/scraping_clicking.py:98-102 | a location without `"Piscine à "` is only stripped |
| Text.ProcessPlaceLeadingLabel | scraping/scraping_clicking.py:98-102 | a leading `"Piscine à "` is removed and the rest is processed as before |
| Text.JoinSeparators | scraping/scraping_clicking.py:128-129 | joining `n` slash-free link texts with `" / "` gives `n - 1` slashes, and none for no link |
| Decimal.NatToString | scraping/scraping_clicking.py:159 | a page number renders as at least one digit, with no leading zero |
| Decimal.ParseNatToString | scraping/scraping_clicking.py:159 | the decimal rendering of a page number parses back to it |
| Decimal.NatToStringInjective | scraping/scraping_clicking.py:159 | distinct page numbers render differently |
| Decimal.ParseIntToString | scraping_scroll.py:106 | the rendering of an integer index is well formed and parses back to the index |
| Extraction.CompanyCsvShape | scraping/scraping_clicking.py:135-143 | the region file has the seven column names as header, one row per record, every row seven cells wide, the last cell the record's URL |
| Extraction.CompanyRecordAllOrNothing | scraping/scraping_clicking.py:114-145 | a record is produced exactly when the page loads and no lookup raises anything other than a missing element |
| Extraction.CompanyRecordFields | scraping/scraping_clicking.py:119-143 | summarised below the table |
| Extraction.CompanyRecordWebSeparators | scraping/scraping_clicking.py:128-129 | with slash-free link texts the web field has one slash per separator, and is empty for no link |
| Extraction.ScrapeCompanyInfo | scraping/scraping_clicking.py:106-145 | the step-by-step function appends exactly the record `CompanyRecord` gives, or leaves `data` unchanged when an exception cuts it short |
| Traversal.ClickProtocol | scraping/scraping_clicking.py:64-76 | `click_element_safely` makes one or two attempts, native first; the script click comes exactly after an interception; only a failed script click raises |
| Traversal.RowsAllGood | scraping/scraping_clicking.py:170-177 | a page of good entries yields one record per entry, in entry order, and does not end the variant |
| Traversal.RowsAtMostOnePerEntry | scraping/scraping_clicking.py:170-179 | a page never yields more records than it lists entries |
| Traversal.UrlDeterminesPage | scraping/scraping_clicking.py:159 | two requests of one variant have the same URL only for the same page number |
| Traversal.PageResult | scraping/scraping_clicking.py:162-181 | the loop goes on past a page only when that page is one the site serves |
| Traversal.StopPage | scraping/scraping_clicking.py:157-184 | the stop page is never before the start page |
| Traversal.StopPageSpec | scraping/scraping_clicking.py:157-184 | every page before the stop page lists entries and runs its entry loop through; the stop page does not |
| Traversal.WalkVisits | scraping/scraping_clicking.py:156-168 | a variant requests pages 1, 2, … up to its stop page, contiguous, once each |
| Traversal.WalkRecords | scraping/scraping_clicking.py:158-184 | a variant's records are those of its pages up to the stop page, in page order |
| Traversal.RegionVisits | scraping/scraping_clicking.py:156-184 | a region's requests are each variant's page range, variant after variant, with the page number restarting at 1 |
| Traversal.RegionVisitsFormats | scraping/scraping_clicking.py:156-159 | every request uses one of the given variants and a page number of at least 1 |
| Traversal.SameVariantTwice | scraping/scraping_clicking.py:156 | two equal variants traverse the site twice and collect its records twice |
| Traversal.ScrapeEntries | scraping/scraping_clicking.py:170-179 | the entry loop appends exactly the page's records and reports whether an exception ended the variant |
| Traversal.ScrapeVariant | scraping/scraping_clicking.py:157-184 | the `while True` loop adds exactly the records and requests of the variant's walk from page 1 |
| Traversal.ScrapeRegion | scraping/scraping_clicking.py:147-191 | `scrape_region` collects the records and requests of all variants in order, and writes `<region_name>.csv` with them when there is any |
| Regions.VariantsSpec | scraping/scraping_clicking.py:200-204 | the two variants replace every space, and nothing else, by `+` and by `-`; the second is the region's identity |
| Regions.VariantsWithoutSpace | scraping/scraping_clicking.py:204 | a name without spaces gives two equal variants |
| Regions.ReplaceTheSpace | scraping/scraping_clicking.py:200-204 | in a two-word name, the single space becomes the joiner |
| Regions.TwoWordVariants | scraping/scraping_clicking.py:204 | a two-word name's variants are the words joined by `+` and by `-` |
| Regions.ConfiguredVariants | scraping/scraping_clicking.py:194-205 | the configured regions' variants: the name twice for Martinique, Guadeloupe and Guyane; `La+Reunion` and `La-Reunion`, identity `La-Reunion` |
| Regions.LaReunionVariants | scraping/scraping_clicking.py:195-204 | `La Reunion` gives `La+Reunion` and `La-Reunion` |
| Regions.ExistingStemsSpec | scraping/scraping_clicking.py:27 | a name is among the existing stems exactly when some listed `.csv` file has it as its stem |
| Regions.RegionFileStem | scraping/scraping_clicking.py:27 | the stem of `<name>.csv` is `name` when the name holds a character other than a dot |
| Regions.DotsOnlyFileStem | scraping/scraping_clicking.py:27 | for a name made only of dots, following `os.path.splitext`, the stem is the whole file name |
| Regions.ScrapedRegion | scraping/scraping_clicking.py:187-205 | any other region is requested through its two variants only, and `<identity>.csv` is written once, after both variants, exactly when a record was collected |
| Regions.RunVisitsOnlyUnskipped | scraping/scraping_clicking.py:199-205 | every request of a run belongs to a region that was not skipped and uses one of its variants |
| Regions.RunWritesNamed | scraping/scraping_clicking.py:187-205 | every file of a run is `<identity>.csv` of a region that was not skipped and holds at least one row |
| Regions.ResumeSkips | scraping/scraping_clicking.py:27 | once a run has written a region's file, a later run that finds the file skips the region |
| Regions.StemsReadOnce | scraping/scraping_clicking.py:27 | the stems are read once, so a region listed twice is scraped twice in one run |
| Regions.ProcessRegions | scraping/scraping_clicking.py:199-205 | the region loop makes exactly the requests and writes of the run specification, against the stems of the folder listing taken at start |
| Scenario.EntryIsGood | scraping/scraping_clicking.py:114-145 | a listing entry whose detail page has every field yields its record |
| Scenario.FirstVariant | scraping/scraping_clicking.py:158-184 | a variant with a page of three entries, then an empty page, gives three records and requests pages 1 and 2 |
| Scenario.SecondVariant | scraping/scraping_clicking.py:158-184 | a variant with a single page of one entry gives one record and still requests page 2 |
| Scenario.ReunionTrace | scraping/scraping_clicking.py:156-184 | the two variants together give four records and four listing requests |
| Scenario.ReunionRun | scraping/scraping_clicking.py:186-205 | with no file yet, the run writes the region's file once, with the header and four rows |
| Scroll.SaveAllFromAbsent | scraping_scroll.py:74-83 | saving into an absent file gives one header and then one row per entry, in order; no entry, no file |
| Scroll.SaveAllOnExisting | scraping_scroll.py:80-83 | saving into an existing file keeps its lines and adds one row per entry, with no header |
| Scroll.CreatedFileShape | scraping_scroll.py:74-83 | after `K` saves into an absent file, it holds `K + 1` lines: the header first, then `K` rows, each as wide as the header |
| Scroll.EntryRowsPrefix | scraping_scroll.py:79-83 | the rows of the first `k` entries are the first `k` rows |
| Scroll.SavesOnlyAppend | scraping_scroll.py:82-83 | the file after the first `k` saves is a prefix of the file after all saves: nothing saved is rewritten |
| Scroll.SavesOnlyAppendFromAbsent | scraping_scroll.py:74-83 | the same holds starting from an absent file |
| Scroll.IndexCellRoundTrip | scraping_scroll.py:106 | the `Index` cell reads back as the entry's index |
| Scroll.FirstGapSpec | scraping_scroll.py:98-103 | the first failed lookup is the first, in order, that did not find its element, and there is none exactly when all found theirs |
| Scroll.ScrollEntryFirstGap | scraping_scroll.py:98-117 | the outcome is decided by the first failed lookup: none gives an entry, a missing element drops it, any other exception escapes |
| Scroll.ScrollEntryOutcome | scraping_scroll.py:98-117 | an entry is produced exactly when all five lookups succeed; the entry is dropped exactly when the first failure is a missing element, and propagates exactly when it is another exception |
| Scroll.ScrollEntryFields | scraping_scroll.py:99-113 | a produced entry has the given index and URL and the texts as read; its address is the address's lines joined by `". "`, so no line break is left |
| Scroll.ScrollScraper.constructor | scraping_scroll.py:22-25 | the scraper starts with empty `data` and the file as found |
| Scroll.ScrollScraper.SaveDataToCsv | scraping_scroll.py:74-84 | `save_data_to_csv` creates the file with the header and the row, or appends the row alone; `data` is untouched |
| Scroll.ScrollScraper.ScrapeCompanyInfo | scraping_scroll.py:89-117 | on success the entry is appended to `data` and, as the same row, to the file; a missing element or another exception leaves both unchanged; the file stays equal to the initial file plus all of `data`, saved in order |

`Extraction.CompanyRecordFields` states these fields of a produced record:

- the URL is the one visited;
- the address is never empty: an empty or missing address becomes `"No disponible"`,
  and any other address is kept as read;
- the name is `process_name` of the heading text: it has no whitespace at its ends and no
  backslash, and it has no newline when the heading has no backslash;
- a found category is kept as read, and a found location becomes
  `process_place_from_location` of its text;
- a missing element reads as the empty string;
- the phone loses exactly a leading `tel:`;
- the web field joins the link texts with `" / "`.

## Left out

- Driver setup is not modelled: Chrome options, the CDP script and `driver.quit`
  (`scraping/scraping_clicking.py:31-54`, `208`; `scraping_scroll.py:30-50`, `146-152`).
  These are foreign browser calls.
- `random_sleep` is not modelled. Its random, real-time delays do not affect what is
  collected.
- `accept_cookies` and `scrape_page` are not modelled. They are pure driver interaction,
  and `scrape_page` ends in `exit()` on error.
- All console output (`print`) is left out.
- Selectors are not resolved. Each lookup is an oracle answer (`Driver.Lookup`), so
  what `h1` or an XPath matches on a real page is not modelled.
- pandas CSV details are left out: the UTF-8 BOM, quoting and escaping. A file is a
  header and rows of cells. The output folder is not joined to the file name: a file
  is named by its base name.
- `get_attribute` returning `None` for a missing attribute is read as the empty
  string. pandas writes an empty cell for both, but the in-memory `data` would hold
  `None`.
- `os.path.splitext` is modelled for names ending in `.csv`, on POSIX separators. The
  Windows alternative separator is not modelled.
- The site is a fixed function of the variant and the page number: it is assumed not to
  change during a run, so two requests of the same page get the same answer.
- The site has finitely many pages for each variant, and every later page lists
  nothing. A site that lists entries forever, where the source would not terminate,
  is not modelled.
- Reading `driver.current_url` after the click (`scraping/scraping_clicking.py:175`)
  always succeeds in the model (`Driver.Row`'s `landing` is a plain string). In the
  source a `WebDriverException` there ends the variant, like a failed `driver.back()`.
- The clicking scraper reads an entry's title text only for printing, so it appears
  only in whether that read raises (`Driver.Row`).
- Scroll.ScrollScraper.ScrapeCompanyInfo: an exception raised by the file write itself
  (after `data.append`) is not modelled, as saving always succeeds in the model.
- Text.ProcessPlaceWithoutLabel: `replace` removes every occurrence of
  `"Piscine à "` that is present in the input. The model does not claim that the result
  holds no occurrence, because removing one can join its neighbours into a new one
  (`"Pis" + "Piscine à " + "cine à X"`).
- ML/ and spark_config.py are not part of this model: sklearn metric wrappers over
  floating point, and the Spark session bootstrap.

## Findings

| source | as written | input that shows it | evidently intended | confidence | as-written member | corrected member |
|---|---|---|---|---|---|---|
| scraping/scraping_clicking.py:92-95 | the backslash test comes first, so a newline before the first backslash survives | `process_name("A\nB\\C")` returns `"A\nB"`, and a second call returns `"A"` | the docstring asks to remove both `\n` and `\`: cut at whichever comes first, so that the result has neither and the cleanup is idempotent | medium, not executed | Text.ProcessNameKeepsNewline | Text.CleanNameIdempotent |

The function as written is `Text.ProcessName`. `Text.ProcessNameIdempotentIff` states
exactly when it is idempotent. The corrected function is `Text.CleanName`. The record
the clicking scraper builds keeps `process_name`, as the source does. `Text.CleanNameShape` proves that its result
has no backslash and no newline. `Text.CleanNameAgrees` proves that it differs from the
original only on inputs like the one above.

Outside the modelled code, `scraping/scraping_clicking.py:46` calls `WebDriverWait`, which
the file never imports. `initialize_driver()` therefore raises `NameError` when line 54
runs at import time, before any modelled code is reached. Driver setup is not modelled, so
this observation has no Dafny counterpart.
