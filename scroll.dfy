/**
  The scrolling scraper's record extraction and its append-only CSV file:
  `scrape_company_info(url, data, index)` reads five fields of a loaded
  detail page, appends the entry to `data` and at once saves it with
  `save_data_to_csv`, which creates the file with a header row the first
  time and appends a header-less row afterwards.
 */
module Scroll {
  import opened Wrappers
  import opened Text
  import opened Decimal
  import opened Driver

  /** One saved entry: the dictionary built by `scrape_company_info`. */
  datatype Entry = Entry(
    index: int, name: string, place: string, category: string,
    web: string, address: string, comesFrom: string)

  /** The dictionary's keys, in insertion order: the CSV header. */
  const EntryColumns: seq<string> := ["Index", "Name", "Place", "Category", "Web", "Address", "Comes From"]

  /** The line break inside an address, and what replaces it. */
  const AddressBreak: char := '\n'
  const AddressJoiner: string := ". "

  /** The cells of an entry's row, in column order; the index is written in
      decimal. */
  function EntryCells(e: Entry): seq<string>
  {
    [IntToString(e.index), e.name, e.place, e.category, e.web, e.address, e.comesFrom]
  }

  /** One line of the CSV file. */
  datatype Line = HeaderLine(names: seq<string>) | RowLine(cells: seq<string>)

  /** The row lines of a sequence of entries, in order. */
  function EntryRows(es: seq<Entry>): seq<Line>
  {
    seq(|es|, i requires 0 <= i < |es| => RowLine(EntryCells(es[i])))
  }

  /** `save_data_to_csv(entry)`: the file's lines after the call, given its
      lines before (`None` when `os.path.exists` is false). */
  function Save(file: Option<seq<Line>>, e: Entry): seq<Line>
  {
    if file.None? then [HeaderLine(EntryColumns), RowLine(EntryCells(e))]
    else file.value + [RowLine(EntryCells(e))]
  }

  /** The file after saving `es` one by one, in order. */
  function SaveAll(file: Option<seq<Line>>, es: seq<Entry>): Option<seq<Line>>
    decreases |es|
  {
    if es == [] then file else Some(Save(SaveAll(file, es[..|es| - 1]), es[|es| - 1]))
  }

  /** Saving into an absent file gives the header once, then one row per
      entry in the order saved; no entry, no file. */
  lemma {:induction false} SaveAllFromAbsent(es: seq<Entry>)
    ensures es == [] ==> SaveAll(None, es) == None
    ensures es != [] ==> SaveAll(None, es) == Some([HeaderLine(EntryColumns)] + EntryRows(es))
    decreases |es|
  {
    if |es| > 1 {
      var init := es[..|es| - 1];
      var last := RowLine(EntryCells(es[|es| - 1]));
      SaveAllFromAbsent(init);
      assert SaveAll(None, es) == Some(SaveAll(None, init).value + [last]);
      assert EntryRows(init) + [last] == EntryRows(es);
      assert ([HeaderLine(EntryColumns)] + EntryRows(init)) + [last] ==
             [HeaderLine(EntryColumns)] + EntryRows(es);
    } else if |es| == 1 {
      assert es[..0] == [];
      assert SaveAll(None, es[..0]) == None;
      assert SaveAll(None, es) == Some(Save(None, es[0]));
      assert EntryRows(es) == [RowLine(EntryCells(es[0]))];
      assert [HeaderLine(EntryColumns)] + EntryRows(es) == Save(None, es[0]);
    }
  }

  /** Saving into an existing file never rewrites it and adds no header:
      the old lines, then one row per entry. */
  lemma {:induction false} SaveAllOnExisting(lines: seq<Line>, es: seq<Entry>)
    ensures SaveAll(Some(lines), es) == Some(lines + EntryRows(es))
    decreases |es|
  {
    if es == [] {
      assert lines + EntryRows(es) == lines;
    } else {
      var init := es[..|es| - 1];
      SaveAllOnExisting(lines, init);
      assert EntryRows(init) + [RowLine(EntryCells(es[|es| - 1]))] == EntryRows(es);
      assert (lines + EntryRows(init)) + [RowLine(EntryCells(es[|es| - 1]))] == lines + EntryRows(es);
    }
  }

  /** A file created by the scraper holds exactly one header line, first,
      and as many rows as entries saved, each lined up under the header. */
  lemma CreatedFileShape(es: seq<Entry>)
    requires es != []
    ensures SaveAll(None, es).Some?
    ensures var f := SaveAll(None, es).value;
      && |f| == |es| + 1
      && f[0] == HeaderLine(EntryColumns)
      && (forall i :: 1 <= i < |f| ==> f[i].RowLine? && |f[i].cells| == |EntryColumns|)
      && (forall i :: 0 <= i < |es| ==> f[i + 1] == RowLine(EntryCells(es[i])))
  {
    SaveAllFromAbsent(es);
    var rows := EntryRows(es);
    var f := [HeaderLine(EntryColumns)] + rows;
    assert SaveAll(None, es).value == f;
    assert forall i :: 1 <= i < |f| ==> f[i] == rows[i - 1];
  }

  lemma EntryRowsPrefix(es: seq<Entry>, k: nat)
    requires k <= |es|
    ensures EntryRows(es[..k]) == EntryRows(es)[..k]
  {
  }

  lemma PrefixUnderHeader(h: seq<Line>, a: seq<Line>, b: seq<Line>)
    requires a <= b
    ensures h + a <= h + b
  {
    assert (h + b)[..|h + a|] == h + a;
  }

  /** Every save is durable: the file after the first `k` entries is a
      prefix of the file after all of them. */
  lemma SavesOnlyAppend(file: Option<seq<Line>>, es: seq<Entry>, k: nat)
    requires k <= |es| && file.Some?
    ensures SaveAll(file, es[..k]).Some?
    ensures SaveAll(file, es[..k]).value <= SaveAll(file, es).value
  {
    SaveAllOnExisting(file.value, es[..k]);
    SaveAllOnExisting(file.value, es);
    EntryRowsPrefix(es, k);
  }

  /** The same from an absent file, for every non-empty prefix. */
  lemma SavesOnlyAppendFromAbsent(es: seq<Entry>, k: nat)
    requires 1 <= k <= |es|
    ensures SaveAll(None, es[..k]).Some? && SaveAll(None, es).Some?
    ensures SaveAll(None, es[..k]).value <= SaveAll(None, es).value
  {
    var h := [HeaderLine(EntryColumns)];
    SaveAllFromAbsent(es[..k]);
    SaveAllFromAbsent(es);
    assert SaveAll(None, es[..k]) == Some(h + EntryRows(es[..k]));
    assert SaveAll(None, es) == Some(h + EntryRows(es));
    EntryRowsPrefix(es, k);
    PrefixUnderHeader(h, EntryRows(es[..k]), EntryRows(es));
  }

  /** The index cell reads back as the entry's index. */
  lemma IndexCellRoundTrip(e: Entry)
    ensures IsIntText(EntryCells(e)[0]) && ParseInt(EntryCells(e)[0]) == e.index
  {
    ParseIntToString(e.index);
  }

  /** The five lookups of the scrolling scraper's detail page, in the order
      the source performs them. `webHref` is the `href` attribute of the
      first web-link anchor. */
  datatype ScrollPage = ScrollPage(
    name: Lookup, place: Lookup, category: Lookup, webHref: Lookup, address: Lookup)

  function Lookups(page: ScrollPage): seq<Lookup>
  {
    [page.name, page.place, page.category, page.webHref, page.address]
  }

  /** The first lookup, in order, that did not find its element. */
  function FirstGap(ls: seq<Lookup>): Option<Lookup>
    decreases |ls|
  {
    if ls == [] then None
    else if ls[0].Found? then FirstGap(ls[1..])
    else Some(ls[0])
  }

  lemma {:induction false} FirstGapSpec(ls: seq<Lookup>)
    ensures FirstGap(ls).None? <==> forall i :: 0 <= i < |ls| ==> ls[i].Found?
    ensures FirstGap(ls).Some? ==>
              exists k :: 0 <= k < |ls| && ls[k] == FirstGap(ls).value && !ls[k].Found? &&
                          forall i :: 0 <= i < k ==> ls[i].Found?
    decreases |ls|
  {
    if ls != [] && ls[0].Found? {
      FirstGapSpec(ls[1..]);
      assert forall i :: 1 <= i < |ls| ==> ls[1..][i - 1] == ls[i];
      if FirstGap(ls).Some? {
        var k :| 0 <= k < |ls[1..]| && ls[1..][k] == FirstGap(ls[1..]).value && !ls[1..][k].Found? &&
                 forall i :: 0 <= i < k ==> ls[1..][i].Found?;
        assert ls[k + 1] == ls[1..][k];
        assert forall i :: 0 <= i < k + 1 ==> ls[i].Found? by {
          forall i | 0 <= i < k + 1
            ensures ls[i].Found?
          {
            if i > 0 {
              assert ls[i] == ls[1..][i - 1];
            }
          }
        }
      }
    } else if ls != [] {
      assert ls[0] == FirstGap(ls).value;
    }
  }

  /** What one call of `scrape_company_info` comes to: the entry, a dropped
      entry (`NoSuchElementException`, caught and printed), or a driver
      exception that escapes the function. */
  datatype Extracted = Got(entry: Entry) | Missing | Failed

  /** One lookup of `scrape_company_info`'s `try` block: a found element
      lets the function go on to `next`; a missing one ends it in the
      handler, any other exception leaves it. */
  function Gate(l: Lookup, next: Extracted): Extracted
  {
    match l
    case Found(_) => next
    case NotFound => Missing
    case Raised => Failed
  }

  /** The entry of a detail page, the lookups taken in the source's order;
      the address has each line break replaced by `". "`. */
  function ScrollEntry(url: string, page: ScrollPage, index: int): Extracted
  {
    Gate(page.name, Gate(page.place, Gate(page.category, Gate(page.webHref, Gate(page.address,
      Got(Entry(index, FieldText(page.name), FieldText(page.place), FieldText(page.category),
                FieldText(page.webHref),
                ReplaceAll(FieldText(page.address), [AddressBreak], AddressJoiner), url)))))))
  }

  /** `x` is the outcome the first gap of `ls` calls for. */
  predicate DecidedBy(x: Extracted, ls: seq<Lookup>)
  {
    && (x.Got? <==> FirstGap(ls).None?)
    && (x.Missing? <==> FirstGap(ls) == Some(NotFound))
    && (x.Failed? <==> FirstGap(ls) == Some(Raised))
  }

  lemma GateDecided(l: Lookup, next: Extracted, rest: seq<Lookup>)
    requires DecidedBy(next, rest)
    ensures DecidedBy(Gate(l, next), [l] + rest)
  {
    assert ([l] + rest)[1..] == rest;
  }

  /** The entry is decided by the first lookup, in order, that does not
      find its element. */
  lemma ScrollEntryFirstGap(url: string, page: ScrollPage, index: int)
    ensures DecidedBy(ScrollEntry(url, page, index), Lookups(page))
  {
    var e := Entry(index, FieldText(page.name), FieldText(page.place), FieldText(page.category),
                   FieldText(page.webHref),
                   ReplaceAll(FieldText(page.address), [AddressBreak], AddressJoiner), url);
    var x4 := Gate(page.address, Got(e));
    GateDecided(page.address, Got(e), []);
    var x3 := Gate(page.webHref, x4);
    GateDecided(page.webHref, x4, [page.address]);
    var x2 := Gate(page.category, x3);
    GateDecided(page.category, x3, [page.webHref, page.address]);
    var x1 := Gate(page.place, x2);
    GateDecided(page.place, x2, [page.category, page.webHref, page.address]);
    GateDecided(page.name, x1, [page.place, page.category, page.webHref, page.address]);
  }

  /** An entry is produced exactly when all five lookups succeed; a missing
      element drops it and any other exception escapes, whichever comes
      first in the order of the lookups. */
  lemma ScrollEntryOutcome(url: string, page: ScrollPage, index: int)
    ensures ScrollEntry(url, page, index).Got? <==>
              forall i :: 0 <= i < 5 ==> Lookups(page)[i].Found?
    ensures ScrollEntry(url, page, index).Missing? <==>
              exists k :: 0 <= k < 5 && Lookups(page)[k].NotFound? &&
                          forall i :: 0 <= i < k ==> Lookups(page)[i].Found?
    ensures ScrollEntry(url, page, index).Failed? <==>
              exists k :: 0 <= k < 5 && Lookups(page)[k].Raised? &&
                          forall i :: 0 <= i < k ==> Lookups(page)[i].Found?
  {
    var ls := Lookups(page);
    ScrollEntryFirstGap(url, page, index);
    FirstGapSpec(ls);
    if FirstGap(ls).Some? {
      var k :| 0 <= k < |ls| && ls[k] == FirstGap(ls).value && !ls[k].Found? &&
               forall i :: 0 <= i < k ==> ls[i].Found?;
      forall j | 0 <= j < 5 && !ls[j].Found? && (forall i :: 0 <= i < j ==> ls[i].Found?)
        ensures j == k
      {
      }
    }
  }

  /** The fields of a produced entry: the given index and URL, the texts as
      read, and the address as its lines joined by `". "`, so with no line
      break left and two characters in place of each break. */
  lemma ScrollEntryFields(url: string, page: ScrollPage, index: int)
    requires ScrollEntry(url, page, index).Got?
    ensures var e := ScrollEntry(url, page, index).entry;
      && e.index == index && e.comesFrom == url
      && page.name == Found(e.name) && page.place == Found(e.place)
      && page.category == Found(e.category) && page.webHref == Found(e.web)
      && e.address == Join(AddressJoiner, SplitAt(FieldText(page.address), AddressBreak))
      && AddressBreak !in e.address
      && |e.address| == |FieldText(page.address)| + Count(AddressBreak, FieldText(page.address))
      && (AddressBreak !in FieldText(page.address) ==> e.address == FieldText(page.address))
  {
    ScrollEntryOutcome(url, page, index);
    var ls := Lookups(page);
    assert ls[0].Found? && ls[1].Found? && ls[2].Found? && ls[3].Found? && ls[4].Found?;
    var raw := FieldText(page.address);
    ReplaceCharGone(raw, AddressBreak, AddressJoiner);
    ReplaceCharIsJoin(raw, AddressBreak, AddressJoiner);
    if AddressBreak !in raw {
      CountAbsent(AddressBreak, raw);
      ReplaceCharAbsent(raw, AddressBreak, AddressJoiner);
    }
  }

  /** What `scrape_company_info` did, as its caller sees it. */
  datatype Outcome = Saved | Dropped | Propagated

  /** The scrolling scraper's state: the `data` list it appends to and the
      lines of the CSV file at `csv_filename` (`None` while it does not
      exist). `initial` is the file as it was when the scraper started. */
  class ScrollScraper {
    var data: seq<Entry>
    var file: Option<seq<Line>>
    ghost var initial: Option<seq<Line>>

    /** The file holds what was there at start, then every entry of
        `data`, saved in order. */
    ghost predicate Mirrors()
      reads this
    {
      file == SaveAll(initial, data)
    }

    constructor(existing: Option<seq<Line>>)
      ensures data == [] && file == existing && initial == existing
      ensures Mirrors()
    {
      data := [];
      file := existing;
      initial := existing;
    }

    /** `save_data_to_csv(entry)`: create the file with the header and the
        row, or append the row alone. */
    method SaveDataToCsv(entry: Entry)
      modifies this
      ensures file == Some(Save(old(file), entry))
      ensures data == old(data) && initial == old(initial)
    {
      if file.None? {
        file := Some([HeaderLine(EntryColumns), RowLine(EntryCells(entry))]);
      } else {
        file := Some(file.value + [RowLine(EntryCells(entry))]);
      }
    }

    /** `scrape_company_info(url, data, index)` on a loaded detail page. */
    method ScrapeCompanyInfo(url: string, page: ScrollPage, index: int) returns (outcome: Outcome)
      modifies this
      ensures initial == old(initial)
      ensures ScrollEntry(url, page, index).Got? ==>
                var e := ScrollEntry(url, page, index).entry;
                outcome == Saved && data == old(data) + [e] && file == Some(Save(old(file), e))
      ensures ScrollEntry(url, page, index).Missing? ==>
                outcome == Dropped && data == old(data) && file == old(file)
      ensures ScrollEntry(url, page, index).Failed? ==>
                outcome == Propagated && data == old(data) && file == old(file)
      ensures old(Mirrors()) ==> Mirrors()
    {
      ScrollEntryOutcome(url, page, index);
      var ls := Lookups(page);
      if page.name.NotFound? { return Dropped; }
      if page.name.Raised? { return Propagated; }
      if page.place.NotFound? { return Dropped; }
      if page.place.Raised? { return Propagated; }
      if page.category.NotFound? { return Dropped; }
      if page.category.Raised? { return Propagated; }
      if page.webHref.NotFound? { return Dropped; }
      if page.webHref.Raised? { return Propagated; }
      if page.address.NotFound? { return Dropped; }
      if page.address.Raised? { return Propagated; }
      assert forall i :: 0 <= i < 5 ==> ls[i].Found?;
      var address := ReplaceAll(FieldText(page.address), [AddressBreak], AddressJoiner);
      var entry := Entry(index, FieldText(page.name), FieldText(page.place), FieldText(page.category),
                         FieldText(page.webHref), address, url);
      ghost var before := data;
      data := data + [entry];
      SaveDataToCsv(entry);
      outcome := Saved;
      assert data[..|data| - 1] == before;
    }
  }
}
