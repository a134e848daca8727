/**
  The top level of the clicking scraper: the `.csv` stems found in the
  output folder once at start-up, and the loop over the configured regions
  that skips a region whose identity is among them and otherwise scrapes it
  with its two format variants.
 */
module Regions {
  import opened Wrappers
  import opened Text
  import opened Driver
  import opened Extraction
  import opened Traversal

  /** The regions the script processes, in order. */
  const ConfiguredRegions: seq<string> := ["Martinique", "Guadeloupe", "Guyane", "La Reunion"]

  /** A region's identity, `region.replace(' ', '-')`: the stem of its file. */
  function RegionName(region: string): string
  {
    ReplaceAll(region, " ", "-")
  }

  /** `region_formats`: spaces as `+`, then spaces as `-`. */
  function Variants(region: string): seq<string>
  {
    [ReplaceAll(region, " ", "+"), RegionName(region)]
  }

  /** Each variant is the region name with every space, and nothing else,
      replaced by the variant's joiner; the second is the region's identity. */
  lemma VariantsSpec(region: string)
    ensures |Variants(region)| == 2 && Variants(region)[1] == RegionName(region)
    ensures forall k :: 0 <= k < 2 ==>
              |Variants(region)[k]| == |region| && ' ' !in Variants(region)[k]
    ensures forall i :: 0 <= i < |region| ==>
              Variants(region)[0][i] == (if region[i] == ' ' then '+' else region[i]) &&
              Variants(region)[1][i] == (if region[i] == ' ' then '-' else region[i])
  {
    assert " " == [' '] && "+" == ['+'] && "-" == ['-'];
    ReplaceChar(region, ' ', '+');
    ReplaceChar(region, ' ', '-');
  }

  /** A name without spaces gives two equal variants: the region is
      traversed twice. */
  lemma VariantsWithoutSpace(region: string)
    requires ' ' !in region
    ensures Variants(region) == [region, region]
  {
    VariantsSpec(region);
    assert Variants(region)[0] == region;
    assert Variants(region)[1] == region;
  }

  /** Three of the four configured regions have no space, so both of their
      variants are the name itself; the fourth is written two ways. */
  lemma ConfiguredVariants()
    ensures Variants(ConfiguredRegions[0]) == ["Martinique", "Martinique"]
    ensures Variants(ConfiguredRegions[1]) == ["Guadeloupe", "Guadeloupe"]
    ensures Variants(ConfiguredRegions[2]) == ["Guyane", "Guyane"]
    ensures Variants(ConfiguredRegions[3]) == ["La+Reunion", "La-Reunion"]
    ensures RegionName(ConfiguredRegions[3]) == "La-Reunion"
  {
    VariantsWithoutSpace("Martinique");
    VariantsWithoutSpace("Guadeloupe");
    VariantsWithoutSpace("Guyane");
    LaReunionVariants();
  }

  /** Replacing the one space of a two-word name. */
  lemma ReplaceTheSpace(a: string, b: string, joiner: string)
    requires ' ' !in a && ' ' !in b
    ensures ReplaceAll(a + " " + b, " ", joiner) == a + joiner + b
  {
    var sp := [' '];
    assert " " == sp;
    ReplaceCharAppend(a + sp, b, ' ', joiner);
    ReplaceCharAppend(a, sp, ' ', joiner);
    ReplaceCharAbsent(a, ' ', joiner);
    ReplaceCharAbsent(b, ' ', joiner);
    SpaceReplaced(joiner);
    assert ReplaceAll(a + sp, sp, joiner) == a + joiner;
  }

  lemma SpaceReplaced(joiner: string)
    ensures ReplaceAll([' '], [' '], joiner) == joiner
  {
    assert [' '][..1] == [' '] && [' '][1..] == [];
    assert ReplaceAll([' '], [' '], joiner) == joiner + ReplaceAll([], [' '], joiner);
  }

  /** A two-word name: the variants join the words with `+` and with `-`. */
  lemma TwoWordVariants(a: string, b: string)
    requires ' ' !in a && ' ' !in b
    ensures Variants(a + " " + b) == [a + "+" + b, a + "-" + b]
  {
    ReplaceTheSpace(a, b, "+");
    ReplaceTheSpace(a, b, "-");
  }

  lemma LaReunionVariants()
    ensures Variants("La Reunion") == ["La+Reunion", "La-Reunion"]
  {
    assert "La Reunion" == "La" + " " + "Reunion";
    TwoWordVariants("La", "Reunion");
    assert "La" + "+" + "Reunion" == "La+Reunion";
    assert "La" + "-" + "Reunion" == "La-Reunion";
  }

  /** `f.endswith(suffix)`. */
  predicate EndsWith(s: string, suffix: string)
  {
    |suffix| <= |s| && s[|s| - |suffix|..] == suffix
  }

  /** `os.path.splitext(f)[0]` for a file name ending in `.csv`: the name
      without its extension, unless everything before that dot is dots, in
      which case the whole name (a leading dot does not start an extension). */
  function CsvStem(fileName: string): string
    requires EndsWith(fileName, ".csv")
  {
    var dot := |fileName| - 4;
    if exists i :: 0 <= i < dot && fileName[i] != '.' then fileName[..dot] else fileName
  }

  /** `existing_files`: the stems of the listed names that end in `.csv`,
      in listing order. */
  function ExistingStems(listing: seq<string>): seq<string>
    decreases |listing|
  {
    if listing == [] then []
    else
      var rest := ExistingStems(listing[1..]);
      if EndsWith(listing[0], ".csv") then [CsvStem(listing[0])] + rest else rest
  }

  /** A name is an existing stem exactly when some listed `.csv` name has it
      as its stem. */
  lemma {:induction false} ExistingStemsSpec(listing: seq<string>, stem: string)
    ensures stem in ExistingStems(listing) <==>
            exists k :: 0 <= k < |listing| && EndsWith(listing[k], ".csv") && CsvStem(listing[k]) == stem
    decreases |listing|
  {
    if listing != [] {
      ExistingStemsSpec(listing[1..], stem);
      assert forall k :: 1 <= k < |listing| ==> listing[1..][k - 1] == listing[k];
      if exists k :: 1 <= k < |listing| && EndsWith(listing[k], ".csv") && CsvStem(listing[k]) == stem {
        var k :| 1 <= k < |listing| && EndsWith(listing[k], ".csv") && CsvStem(listing[k]) == stem;
        assert EndsWith(listing[1..][k - 1], ".csv") && CsvStem(listing[1..][k - 1]) == stem;
      }
    }
  }

  /** The file written for a region has the region's identity as its stem,
      provided the name holds a character other than a dot. */
  lemma {:induction false} RegionFileStem(name: string)
    requires exists i :: 0 <= i < |name| && name[i] != '.'
    ensures EndsWith(name + ".csv", ".csv") && CsvStem(name + ".csv") == name
  {
    var f := name + ".csv";
    assert f[|f| - 4..] == ".csv";
    var i :| 0 <= i < |name| && name[i] != '.';
    assert f[i] == name[i];
    assert f[..|name|] == name;
  }

  /** A name of dots only (the empty name included) never matches: its
      file's stem is the whole file name. */
  lemma {:induction false} DotsOnlyFileStem(name: string)
    requires forall i :: 0 <= i < |name| ==> name[i] == '.'
    ensures EndsWith(name + ".csv", ".csv") && CsvStem(name + ".csv") == name + ".csv"
  {
    var f := name + ".csv";
    assert f[|f| - 4..] == ".csv";
    assert forall i :: 0 <= i < |name| ==> f[i] == name[i];
  }

  /** What the run did: listing requests and files written, in order. */
  datatype RunLog = RunLog(visits: seq<Visit>, writes: seq<Written>)
  {
    function Then(next: RunLog): RunLog
    {
      RunLog(visits + next.visits, writes + next.writes)
    }
  }

  lemma RunLogAssociative(a: RunLog, b: RunLog, c: RunLog)
    ensures a.Then(b).Then(c) == a.Then(b.Then(c))
  {
    assert (a.visits + b.visits) + c.visits == a.visits + (b.visits + c.visits);
    assert (a.writes + b.writes) + c.writes == a.writes + (b.writes + c.writes);
  }

  /** One iteration of the region loop, against the stems found at start. */
  function RegionRun(site: Site, region: string, existing: seq<string>): RunLog
  {
    if RegionName(region) in existing then RunLog([], [])
    else
      var t := RegionTrace(site, Variants(region));
      var saved := SavedFile(RegionName(region), t.records);
      RunLog(t.visits, if saved.Some? then [saved.value] else [])
  }

  /** The whole region loop. */
  function Run(site: Site, regions: seq<string>, existing: seq<string>): RunLog
    decreases |regions|
  {
    if regions == [] then RunLog([], [])
    else RegionRun(site, regions[0], existing).Then(Run(site, regions[1..], existing))
  }

  /** A region already on disk is not touched: no request, no write. */
  lemma SkippedRegion(site: Site, region: string, existing: seq<string>)
    requires RegionName(region) in existing
    ensures RegionRun(site, region, existing) == RunLog([], [])
  {
  }

  /** Any other region is requested through its two variants only, each from
      page 1 to its stop page, and its file `<identity>.csv` is written once,
      after both variants, exactly when a record was collected. */
  lemma ScrapedRegion(site: Site, region: string, existing: seq<string>)
    requires RegionName(region) !in existing
    ensures var run := RegionRun(site, region, existing);
            var records := RegionTrace(site, Variants(region)).records;
      && run.visits == VariantPages(site, Variants(region))
      && (forall v :: v in run.visits ==> v.format in Variants(region))
      && (run.writes == [] <==> records == [])
      && (records != [] ==> run.writes == [Written(RegionName(region) + ".csv", CompanyCsv(records))])
  {
    RegionVisits(site, Variants(region));
    RegionVisitsFormats(site, Variants(region));
  }

  /** Every request of a run belongs to a region that was not skipped and
      uses one of that region's variants. */
  lemma {:induction false} RunVisitsOnlyUnskipped(site: Site, regions: seq<string>, existing: seq<string>)
    ensures forall v :: v in Run(site, regions, existing).visits ==>
              exists k :: 0 <= k < |regions| && RegionName(regions[k]) !in existing &&
                          v.format in Variants(regions[k])
    decreases |regions|
  {
    if regions != [] {
      RunVisitsOnlyUnskipped(site, regions[1..], existing);
      if RegionName(regions[0]) !in existing {
        RegionVisitsFormats(site, Variants(regions[0]));
      }
      forall v | v in Run(site, regions, existing).visits
        ensures exists k :: 0 <= k < |regions| && RegionName(regions[k]) !in existing &&
                            v.format in Variants(regions[k])
      {
        if v !in RegionRun(site, regions[0], existing).visits {
          var k :| 0 <= k < |regions[1..]| && RegionName(regions[1..][k]) !in existing &&
                   v.format in Variants(regions[1..][k]);
          assert regions[1..][k] == regions[k + 1];
        }
      }
    }
  }

  /** Every file a run writes is `<identity>.csv` of a region that was not
      skipped, and holds at least one record. */
  lemma {:induction false} RunWritesNamed(site: Site, regions: seq<string>, existing: seq<string>)
    ensures forall w :: w in Run(site, regions, existing).writes ==>
              |w.csv.rows| >= 1 &&
              exists k :: 0 <= k < |regions| && RegionName(regions[k]) !in existing &&
                          w.fileName == RegionName(regions[k]) + ".csv"
    decreases |regions|
  {
    if regions != [] {
      RunWritesNamed(site, regions[1..], existing);
      forall w | w in Run(site, regions, existing).writes
        ensures |w.csv.rows| >= 1 &&
                exists k :: 0 <= k < |regions| && RegionName(regions[k]) !in existing &&
                            w.fileName == RegionName(regions[k]) + ".csv"
      {
        if w in RegionRun(site, regions[0], existing).writes {
          CompanyCsvShape(RegionTrace(site, Variants(regions[0])).records);
        } else {
          var k :| 0 <= k < |regions[1..]| && RegionName(regions[1..][k]) !in existing &&
                   w.fileName == RegionName(regions[1..][k]) + ".csv";
          assert regions[1..][k] == regions[k + 1];
        }
      }
    }
  }

  /** Resume by skip: once a run has written a region's file, a later run
      whose folder listing holds that file skips the region, provided the
      region name has a character other than a dot. */
  lemma ResumeSkips(site: Site, later: Site, region: string, existing: seq<string>, listing: seq<string>)
    requires exists i :: 0 <= i < |region| && region[i] != '.'
    requires RegionRun(site, region, existing).writes != []
    requires RegionRun(site, region, existing).writes[0].fileName in listing
    ensures RegionRun(later, region, ExistingStems(listing)) == RunLog([], [])
  {
    var name := RegionName(region);
    VariantsSpec(region);
    var i :| 0 <= i < |region| && region[i] != '.';
    assert name[i] != '.';
    RegionFileStem(name);
    var k :| 0 <= k < |listing| && listing[k] == name + ".csv";
    ExistingStemsSpec(listing, name);
  }

  /** The stems are read once, before the loop: a region listed twice is
      scraped twice, and its file written twice, in the same run. */
  lemma StemsReadOnce(site: Site, region: string, existing: seq<string>)
    requires RegionName(region) !in existing
    ensures Run(site, [region, region], existing) ==
            RegionRun(site, region, existing).Then(RegionRun(site, region, existing))
  {
    assert [region, region][1..] == [region];
    assert [region][1..] == [];
    var r := RegionRun(site, region, existing);
    assert r.Then(RunLog([], [])) == r;
  }

  /** The script's `for region in regions` loop, with `existing_files`
      computed from the folder listing before it starts. */
  method ProcessRegions(site: Site, regions: seq<string>, listing: seq<string>)
      returns (visits: seq<Visit>, writes: seq<Written>)
    ensures RunLog(visits, writes) == Run(site, regions, ExistingStems(listing))
  {
    var existing := ExistingStems(listing);
    visits, writes := [], [];
    for i := 0 to |regions|
      invariant RunLog(visits, writes).Then(Run(site, regions[i..], existing)) == Run(site, regions, existing)
    {
      assert regions[i..][1..] == regions[i + 1..];
      ghost var done := RunLog(visits, writes);
      ghost var step := RegionRun(site, regions[i], existing);
      ghost var rest := Run(site, regions[i + 1..], existing);
      assert Run(site, regions[i..], existing) == step.Then(rest);
      RunLogAssociative(done, step, rest);
      var regionName := RegionName(regions[i]);
      if regionName in existing {
        assert step == RunLog([], []);
        assert done.Then(step) == done by {
          assert visits + [] == visits && writes + [] == writes;
        }
        continue;
      }
      var formats := [ReplaceAll(regions[i], " ", "+"), ReplaceAll(regions[i], " ", "-")];
      assert formats == Variants(regions[i]);
      var data, regionVisits, saved := ScrapeRegion(site, regionName, formats);
      var written := if saved.Some? then [saved.value] else [];
      assert step == RunLog(regionVisits, written);
      visits := visits + regionVisits;
      writes := writes + written;
      assert RunLog(visits, writes) == done.Then(step);
    }
    assert regions[|regions|..] == [];
  }
}
