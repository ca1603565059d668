/** The query engine over the loaded volcano table: the row masks of the four
    query pages, `count_and_average_height`, `get_named_volcanoes`, the
    earliest-year default of the year slider, and the step-by-step filtering
    and top-ten type counts of the fourth page. */
module Queries {
  import opened Base
  import opened Strings
  import opened Loader
  import opened Tally

  /** One row of the loaded table, with the columns the queries read. A missing
      value (NaN in the spreadsheet) is `None`; elevations are whole metres. */
  datatype Volcano = Volcano(
    name: Option<string>,
    country: Option<string>,
    region: Option<string>,
    volcanoType: Option<string>,
    setting: Option<string>,
    elevation: Option<int>,
    lastKnownEruption: Cell,
    yearErupted: Option<int>)

  /** The first entry of the region drop-downs, meaning "no region chosen". */
  const RegionPlaceholder: string := "-- Please select a region --"
  /** The first entry of the tectonic-setting drop-down. */
  const SettingPlaceholder: string := "-- Please select a tectonic setting --"
  /** The default region of `count_and_average_height`: do not filter. */
  const AllRegions: string := "All"

  // ---------------------------------------------------------------------
  // Row masks, each a named predicate so that selections can be compared

  /** `df["volcanic region"] == region`; a missing region never matches. */
  function InRegion(region: string): Volcano -> bool {
    (v: Volcano) => v.region == Some(region)
  }

  /** `df["elevation (m)"] >= height`; a missing elevation never passes. */
  function AtLeast(height: int): Volcano -> bool {
    (v: Volcano) => v.elevation.Some? && v.elevation.value >= height
  }

  /** `df["year erupted"].between(lo, hi)`, inclusive at both ends; a missing
      year never passes. */
  function InYears(lo: int, hi: int): Volcano -> bool {
    (v: Volcano) => v.yearErupted.Some? && lo <= v.yearErupted.value <= hi
  }

  /** `df["tectonic setting"] == setting`. */
  function InSetting(setting: string): Volcano -> bool {
    (v: Volcano) => v.setting == Some(setting)
  }

  /** `df["primary volcano type"].isin(types)`. */
  function OfTypes(types: seq<string>): Volcano -> bool {
    (v: Volcano) => v.volcanoType.Some? && v.volcanoType.value in types
  }

  /** `df["last known eruption"].notna()`. */
  predicate HasKnownEruption(v: Volcano) {
    v.lastKnownEruption != Null
  }

  /** Both masks at once (`&` of two boolean series). */
  function Both(p: Volcano -> bool, q: Volcano -> bool): Volcano -> bool {
    (v: Volcano) => p(v) && q(v)
  }

  function ByRegion(df: seq<Volcano>, region: string): (r: seq<Volcano>)
    ensures IsSubsequence(r, df)
    ensures forall v :: v in r <==> v in df && v.region == Some(region)
  {
    FilterMembers(df, InRegion(region));
    Filter(df, InRegion(region))
  }

  function ByMinElevation(df: seq<Volcano>, height: int): (r: seq<Volcano>)
    ensures IsSubsequence(r, df)
    ensures forall v :: v in r <==> v in df && v.elevation.Some? && v.elevation.value >= height
  {
    FilterMembers(df, AtLeast(height));
    Filter(df, AtLeast(height))
  }

  function ByYearRange(df: seq<Volcano>, lo: int, hi: int): (r: seq<Volcano>)
    ensures IsSubsequence(r, df)
    ensures forall v :: v in r <==> v in df && v.yearErupted.Some? && lo <= v.yearErupted.value <= hi
  {
    FilterMembers(df, InYears(lo, hi));
    Filter(df, InYears(lo, hi))
  }

  function BySetting(df: seq<Volcano>, setting: string): (r: seq<Volcano>)
    ensures IsSubsequence(r, df)
    ensures forall v :: v in r <==> v in df && v.setting == Some(setting)
  {
    FilterMembers(df, InSetting(setting));
    Filter(df, InSetting(setting))
  }

  function ByTypes(df: seq<Volcano>, types: seq<string>): (r: seq<Volcano>)
    ensures IsSubsequence(r, df)
    ensures forall v :: v in r <==> v in df && v.volcanoType.Some? && v.volcanoType.value in types
  {
    FilterMembers(df, OfTypes(types));
    Filter(df, OfTypes(types))
  }

  function KnownOnly(df: seq<Volcano>): (r: seq<Volcano>)
    ensures IsSubsequence(r, df)
    ensures forall v :: v in r <==> v in df && v.lastKnownEruption != Null
  {
    FilterMembers(df, HasKnownEruption);
    Filter(df, HasKnownEruption)
  }

  // ---------------------------------------------------------------------
  // Columns

  function RegionColumn(df: seq<Volcano>): (r: seq<Option<string>>)
    ensures |r| == |df| && forall i :: 0 <= i < |df| ==> r[i] == df[i].region
  {
    if df == [] then [] else [df[0].region] + RegionColumn(df[1..])
  }

  function TypeColumn(df: seq<Volcano>): (r: seq<Option<string>>)
    ensures |r| == |df| && forall i :: 0 <= i < |df| ==> r[i] == df[i].volcanoType
  {
    if df == [] then [] else [df[0].volcanoType] + TypeColumn(df[1..])
  }

  // ---------------------------------------------------------------------
  // Query 1: a region or the whole table

  /** The rows query 1 and query 4 look at: the whole table for the
      placeholder, otherwise the rows of the chosen region. */
  function RegionSelection(df: seq<Volcano>, region: string): (r: seq<Volcano>)
    ensures IsSubsequence(r, df)
    ensures forall v :: v in r <==> v in df && (region == RegionPlaceholder || v.region == Some(region))
    ensures region == RegionPlaceholder ==> r == df
    ensures region != RegionPlaceholder ==> r == ByRegion(df, region)
  {
    if region == RegionPlaceholder then
      SubsequenceRefl(df);
      df
    else
      FilterMembers(df, InRegion(region));
      ByRegion(df, region)
  }

  /** The number of rows a region selection keeps is the number of rows of
      that region. */
  lemma {:induction false} RegionCount(df: seq<Volcano>, region: string)
    ensures |ByRegion(df, region)| == Occurrences(RegionColumn(df), region)
  {
    if df != [] {
      RegionCount(df[1..], region);
      assert RegionColumn(df)[1..] == RegionColumn(df[1..]);
    }
  }

  // ---------------------------------------------------------------------
  // count_and_average_height

  /** What `count_and_average_height` returns: the row count, and the mean
      elevation as the sum and the number of known elevations. */
  datatype Summary = Summary(count: nat, elevationTotal: int, elevationKnown: nat)

  /** Sum of the known elevations. */
  function ElevationTotal(df: seq<Volcano>): (r: int)
    ensures ElevationKnown(df) == 0 ==> r == 0
  {
    if df == [] then 0
    else (if df[0].elevation.Some? then df[0].elevation.value else 0) + ElevationTotal(df[1..])
  }

  /** Number of rows whose elevation is known. */
  function ElevationKnown(df: seq<Volcano>): (n: nat)
    ensures n <= |df|
  {
    if df == [] then 0 else (if df[0].elevation.Some? then 1 else 0) + ElevationKnown(df[1..])
  }

  /** `Series.mean()`: undefined (NaN) when no elevation is known. */
  function Mean(s: Summary): (m: Option<real>)
    ensures m.Some? <==> s.elevationKnown > 0
    ensures m.Some? ==> m.value * s.elevationKnown as real == s.elevationTotal as real
  {
    if s.elevationKnown == 0 then None
    else Some(s.elevationTotal as real / s.elevationKnown as real)
  }

  function Summarize(df: seq<Volcano>): (s: Summary)
    ensures s.count == |df| && s.elevationKnown <= s.count
    ensures s.elevationKnown == 0 ==> s.elevationTotal == 0 && Mean(s) == None
  {
    Summary(|df|, ElevationTotal(df), ElevationKnown(df))
  }

  /** `count_and_average_height(df, region)`: with "All" the whole table,
      otherwise only the rows of that region. */
  function CountAndAverageHeight(df: seq<Volcano>, region: string): (s: Summary)
    ensures s.elevationKnown <= s.count <= |df|
  {
    Summarize(if region == AllRegions then df else ByRegion(df, region))
  }

  /** With "All" the count is the length of the table; with any other string
      it is the number of rows whose region is that string, and the mean is
      taken over those rows only. */
  lemma CountAndAverageHeightSpec(df: seq<Volcano>, region: string)
    ensures region == AllRegions ==> CountAndAverageHeight(df, region) == Summarize(df)
    ensures region != AllRegions ==>
              var s := CountAndAverageHeight(df, region);
              var rows := ByRegion(df, region);
              && s.count == Occurrences(RegionColumn(df), region)
              && s.elevationTotal == ElevationTotal(rows)
              && s.elevationKnown == ElevationKnown(rows)
              && (forall v :: v in rows ==> v.region == Some(region))
  {
    if region != AllRegions {
      RegionCount(df, region);
      FilterMembers(df, InRegion(region));
    }
  }

  /** When every row has a known elevation of at least `height`, all
      elevations are known and their sum is at least `height` per row, so the
      mean is at least `height`. */
  lemma {:induction false} ElevationBound(df: seq<Volcano>, height: int)
    requires forall v :: v in df ==> AtLeast(height)(v)
    ensures ElevationKnown(df) == |df|
    ensures ElevationTotal(df) >= height * |df|
  {
    if df != [] {
      assert df[0] in df;
      assert AtLeast(height)(df[0]);
      forall v | v in df[1..]
        ensures AtLeast(height)(v)
      {
        assert v in df;
      }
      ElevationBound(df[1..], height);
      assert height * |df| == height + height * |df[1..]|;
    }
  }

  // ---------------------------------------------------------------------
  // Query 2: region and minimum elevation

  /** The rows of query 2: elevation at least `height`, and the chosen region
      unless the placeholder is selected. */
  function Query2Selection(df: seq<Volcano>, region: string, height: int): (r: seq<Volcano>)
    ensures IsSubsequence(r, df)
  {
    if region == RegionPlaceholder then ByMinElevation(df, height)
    else Filter(df, Both(InRegion(region), AtLeast(height)))
  }

  /** Query 2 keeps rows in order, exactly those with a known elevation of at
      least `height` in the chosen region. */
  lemma Query2Members(df: seq<Volcano>, region: string, height: int)
    ensures var r := Query2Selection(df, region, height);
            && IsSubsequence(r, df)
            && (forall v :: v in r <==> v in df && v.elevation.Some? && v.elevation.value >= height
                                        && (region == RegionPlaceholder || v.region == Some(region)))
  {
    if region == RegionPlaceholder {
      FilterMembers(df, AtLeast(height));
    } else {
      FilterMembers(df, Both(InRegion(region), AtLeast(height)));
    }
  }

  /** The combined mask is the region filter followed by the elevation filter,
      and also the elevation filter followed by the region filter. */
  lemma Query2Order(df: seq<Volcano>, region: string, height: int)
    requires region != RegionPlaceholder
    ensures Query2Selection(df, region, height) == ByMinElevation(ByRegion(df, region), height)
    ensures Query2Selection(df, region, height) == ByRegion(ByMinElevation(df, height), region)
  {
    FilterConjunction(df, InRegion(region), AtLeast(height), Both(InRegion(region), AtLeast(height)));
    FilterCommutes(df, InRegion(region), AtLeast(height));
  }

  /** The region and elevation filters commute. */
  lemma RegionElevationCommute(df: seq<Volcano>, region: string, height: int)
    ensures ByMinElevation(ByRegion(df, region), height) == ByRegion(ByMinElevation(df, height), region)
  {
    FilterCommutes(df, InRegion(region), AtLeast(height));
  }

  /** Filtering the result of query 2 again by a threshold no higher than
      `height` changes nothing. */
  lemma Query2Refilter(df: seq<Volcano>, region: string, height: int, lower: int)
    requires lower <= height
    ensures ByMinElevation(Query2Selection(df, region, height), lower) == Query2Selection(df, region, height)
  {
    var r := Query2Selection(df, region, height);
    Query2Members(df, region, height);
    FilterKeepsAll(r, AtLeast(lower));
  }

  /** Query 2 as the page computes it: the selection, and the summary of
      `count_and_average_height(filtered, region)`, which receives the
      placeholder string when no region is chosen. */
  function Query2(df: seq<Volcano>, region: string, height: int): (r: (seq<Volcano>, Summary))
    ensures IsSubsequence(r.0, df)
    ensures r.1.elevationKnown <= r.1.count <= |r.0|
  {
    var filtered := Query2Selection(df, region, height);
    (filtered, CountAndAverageHeight(filtered, region))
  }

  /** With the placeholder selected the reported count is the number of
      selected rows whose region is the placeholder string itself, not the
      number of selected rows. */
  lemma Query2PlaceholderCount(df: seq<Volcano>, height: int)
    ensures var (filtered, s) := Query2(df, RegionPlaceholder, height);
            s.count == Occurrences(RegionColumn(filtered), RegionPlaceholder)
  {
    var (filtered, s) := Query2(df, RegionPlaceholder, height);
    CountAndAverageHeightSpec(filtered, RegionPlaceholder);
  }

  /** One African volcano of 3000 m: with no region chosen and a threshold of
      2000 m, the page shows one row but reports a count of 0 and no mean. */
  lemma Query2PlaceholderExample()
    ensures var v := Volcano(Some("Kibo"), Some("Tanzania"), Some("Africa"), Some("Stratovolcano"),
                             Some("Rift zone"), Some(3000), Null, None);
            var (filtered, s) := Query2([v], RegionPlaceholder, 2000);
            |filtered| == 1 && s.count == 0 && Mean(s) == None
  {
    var v := Volcano(Some("Kibo"), Some("Tanzania"), Some("Africa"), Some("Stratovolcano"),
                     Some("Rift zone"), Some(3000), Null, None);
    assert Filter([v], AtLeast(2000)) == [v];
    var r := ByRegion([v], RegionPlaceholder);
    assert r == [] by {
      assert !InRegion(RegionPlaceholder)(v);
      assert [v][1..] == [];
    }
  }

  /** Query 2 with the summary taken over the selection itself: the
      placeholder is turned into "All" before counting, so the count and the
      mean are those of the rows shown. */
  function Query2Corrected(df: seq<Volcano>, region: string, height: int): (r: (seq<Volcano>, Summary))
    ensures r.0 == Query2Selection(df, region, height)
    ensures r.1 == Summarize(r.0)
    ensures r.1.count == |r.0| && r.1.elevationKnown == r.1.count && r.1.elevationTotal >= height * r.1.count
  {
    var filtered := Query2Selection(df, region, height);
    var key := if region == RegionPlaceholder then AllRegions else region;
    Query2CorrectedSummary(df, region, height);
    (filtered, CountAndAverageHeight(filtered, key))
  }

  /** The summary the corrected page takes over its selection is the summary
      of the rows shown: one per row, every one of them with a known
      elevation, and the mean at least the threshold. */
  lemma Query2CorrectedSummary(df: seq<Volcano>, region: string, height: int)
    ensures var filtered := Query2Selection(df, region, height);
            var s := CountAndAverageHeight(filtered, if region == RegionPlaceholder then AllRegions else region);
            && s == Summarize(filtered)
            && s.count == |filtered|
            && s.elevationKnown == s.count
            && s.elevationTotal >= height * s.count
  {
    var filtered := Query2Selection(df, region, height);
    Query2Members(df, region, height);
    if region != RegionPlaceholder {
      if region == AllRegions {
      } else {
        FilterMembers(df, Both(InRegion(region), AtLeast(height)));
        FilterKeepsAll(filtered, InRegion(region));
      }
    }
    forall v | v in filtered
      ensures AtLeast(height)(v)
    {
    }
    ElevationBound(filtered, height);
  }

  /** The correction only touches the placeholder case: with a region chosen,
      the corrected page shows and counts what the page as written does. */
  lemma Query2CorrectedAgrees(df: seq<Volcano>, region: string, height: int)
    requires region != RegionPlaceholder
    ensures Query2Corrected(df, region, height) == Query2(df, region, height)
  {
  }

  /** Three rows, two African (100 m and 3000 m) and one Asian (5000 m):
      Africa above 2000 m is the second row alone. */
  lemma Query2ExampleSelection(a: Volcano, b: Volcano, c: Volcano)
    requires a.region == Some("Africa") && a.elevation == Some(100)
    requires b.region == Some("Africa") && b.elevation == Some(3000)
    requires c.region == Some("Asia") && c.elevation == Some(5000)
    ensures Query2Selection([a, b, c], "Africa", 2000) == [b]
  {
    var m := Both(InRegion("Africa"), AtLeast(2000));
    assert [a, b, c][1..] == [b, c] && [b, c][1..] == [c] && [c][1..] == [];
    assert Filter([c], m) == [];
    assert Filter([b, c], m) == [b];
  }

  /** ... and the page reports a count of 1 and a mean of 3000 m. */
  lemma Query2Example(a: Volcano, b: Volcano, c: Volcano)
    requires a.region == Some("Africa") && a.elevation == Some(100)
    requires b.region == Some("Africa") && b.elevation == Some(3000)
    requires c.region == Some("Asia") && c.elevation == Some(5000)
    ensures var (filtered, s) := Query2([a, b, c], "Africa", 2000);
            filtered == [b] && s.count == 1 && Mean(s) == Some(3000.0)
  {
    Query2ExampleSelection(a, b, c);
    assert [b][1..] == [];
    assert ByRegion([b], "Africa") == [b];
    assert ElevationTotal([b]) == 3000 && ElevationKnown([b]) == 1;
  }

  // ---------------------------------------------------------------------
  // Query 3: year range and tectonic setting

  /** The smallest known eruption year, if any. */
  function MinYear(df: seq<Volcano>): (r: Option<int>)
    ensures r.Some? ==> exists i :: 0 <= i < |df| && df[i].yearErupted == r
    ensures r.Some? ==> forall v :: v in df && v.yearErupted.Some? ==> r.value <= v.yearErupted.value
    ensures r.None? <==> forall v :: v in df ==> v.yearErupted.None?
  {
    if df == [] then None
    else
      var rest := MinYear(df[1..]);
      assert forall v :: v in df <==> v == df[0] || v in df[1..];
      match df[0].yearErupted
      case None =>
        (if rest.Some? then (var i :| 0 <= i < |df| - 1 && df[1..][i].yearErupted == rest; assert df[i + 1] == df[1..][i]; rest)
         else rest)
      case Some(y) =>
        if rest.Some? && rest.value < y then
          var i :| 0 <= i < |df| - 1 && df[1..][i].yearErupted == rest;
          assert df[i + 1] == df[1..][i];
          rest
        else Some(y)
  }

  /** The lower end of the year slider: the earliest known year, or 0 when no
      year is known. */
  function EarliestYear(df: seq<Volcano>): (r: int)
    ensures (forall v :: v in df ==> v.yearErupted.None?) ==> r == 0
    ensures (exists v :: v in df && v.yearErupted.Some?) ==>
              (exists i :: 0 <= i < |df| && df[i].yearErupted == Some(r))
              && forall v :: v in df && v.yearErupted.Some? ==> r <= v.yearErupted.value
  {
    match MinYear(df)
    case Some(y) => y
    case None => 0
  }

  /** The rows of query 3: eruption year in the chosen range, and the chosen
      setting unless the placeholder is selected. */
  function Query3Selection(df: seq<Volcano>, lo: int, hi: int, setting: string): (r: seq<Volcano>)
    ensures IsSubsequence(r, df)
  {
    if setting == SettingPlaceholder then ByYearRange(df, lo, hi)
    else Filter(df, Both(InYears(lo, hi), InSetting(setting)))
  }

  /** Query 3 keeps rows in order, exactly those with a known year between
      `lo` and `hi` inclusive and, when a setting is chosen, that setting;
      the combined mask is the year filter followed by the setting filter. */
  lemma Query3Members(df: seq<Volcano>, lo: int, hi: int, setting: string)
    ensures var r := Query3Selection(df, lo, hi, setting);
            && IsSubsequence(r, df)
            && (forall v :: v in r <==> v in df && v.yearErupted.Some? && lo <= v.yearErupted.value <= hi
                                        && (setting == SettingPlaceholder || v.setting == Some(setting)))
    ensures setting != SettingPlaceholder ==>
              Query3Selection(df, lo, hi, setting) == BySetting(ByYearRange(df, lo, hi), setting)
  {
    if setting == SettingPlaceholder {
      FilterMembers(df, InYears(lo, hi));
    } else {
      FilterMembers(df, Both(InYears(lo, hi), InSetting(setting)));
      FilterConjunction(df, InYears(lo, hi), InSetting(setting), Both(InYears(lo, hi), InSetting(setting)));
    }
  }

  /** `year erupted <= hi`, a missing year never passing. */
  function UpTo(hi: int): Volcano -> bool {
    (v: Volcano) => v.yearErupted.Some? && v.yearErupted.value <= hi
  }

  /** With the slider at its default lower end, the year filter keeps exactly
      the rows with a known year no later than `hi`: no known year is below
      the default. */
  lemma DefaultYearRange(df: seq<Volcano>, hi: int)
    ensures ByYearRange(df, EarliestYear(df), hi) == Filter(df, UpTo(hi))
  {
    FilterCongruent(df, InYears(EarliestYear(df), hi), UpTo(hi));
  }

  /** The row's year is the one the loader derives from its eruption cell. */
  predicate YearDerived(v: Volcano) {
    match YearCell(v.lastKnownEruption)
    case Number(x) => v.yearErupted == Some(x.Floor)
    case _ => v.yearErupted == None
  }

  /** On loaded rows a known year means a known eruption, so restricting the
      year filter to rows with a known eruption changes nothing. */
  lemma YearRangeKnown(df: seq<Volcano>, lo: int, hi: int)
    requires forall v :: v in df ==> YearDerived(v)
    ensures ByYearRange(KnownOnly(df), lo, hi) == ByYearRange(df, lo, hi)
  {
    var years := ByYearRange(df, lo, hi);
    FilterMembers(df, InYears(lo, hi));
    forall v | v in years
      ensures HasKnownEruption(v)
    {
      if v.lastKnownEruption == Null {
        assert YearCell(Null) == Null;
      }
    }
    FilterCommutes(df, HasKnownEruption, InYears(lo, hi));
    FilterKeepsAll(years, HasKnownEruption);
  }

  // ---------------------------------------------------------------------
  // get_named_volcanoes

  /** Every row has a name. */
  predicate AllNamed(df: seq<Volcano>) {
    forall i :: 0 <= i < |df| ==> df[i].name.Some?
  }

  lemma AllNamedCons(df: seq<Volcano>)
    requires df != []
    ensures AllNamed(df) <==> df[0].name.Some? && AllNamed(df[1..])
  {
    assert forall i :: 0 < i < |df| ==> df[i] == df[1..][i - 1];
  }

  /** The names of the rows, all known. */
  function Names(df: seq<Volcano>): (r: seq<string>)
    requires AllNamed(df)
    ensures |r| == |df| && forall i :: 0 <= i < |df| ==> Some(r[i]) == df[i].name
  {
    if df == [] then [] else
      AllNamedCons(df);
      [df[0].name.value] + Names(df[1..])
  }

  /** `"Mount" in name`, case-sensitive. */
  function MentionsMount(): string -> bool {
    (name: string) => Contains(name, "Mount")
  }

  /** `get_named_volcanoes(df)`: the names containing "Mount", in table
      order. A missing name makes the substring test raise; the error carries
      the index of the first such row. */
  function NamedVolcanoes(df: seq<Volcano>): (r: Result<seq<string>, nat>)
    ensures r.Ok? <==> AllNamed(df)
    ensures r.Err? ==> r.error < |df| && df[r.error].name.None? && AllNamed(df[..r.error])
  {
    if df == [] then Ok([])
    else
      AllNamedCons(df);
      match df[0].name
      case None => Err(0)
      case Some(n) =>
        var rest := NamedVolcanoes(df[1..]);
        if rest.Err? then
          var k := rest.error;
          assert df[..k + 1] == [df[0]] + df[1..][..k];
          AllNamedCons(df[..k + 1]);
          Err(k + 1)
        else
          Ok(if Contains(n, "Mount") then [n] + rest.value else rest.value)
  }

  /** Without a missing name, the result is the names filtered by the
      substring test. */
  lemma {:induction false} NamedVolcanoesFilter(df: seq<Volcano>)
    requires AllNamed(df)
    ensures NamedVolcanoes(df) == Ok(Filter(Names(df), MentionsMount()))
  {
    if df != [] {
      AllNamedCons(df);
      NamedVolcanoesFilter(df[1..]);
      assert Names(df) == [df[0].name.value] + Names(df[1..]);
    }
  }

  /** When every row is named, the names returned are, in table order,
      exactly the names in which "Mount" occurs at some position. */
  lemma NamedVolcanoesSpec(df: seq<Volcano>)
    requires AllNamed(df)
    ensures var r := NamedVolcanoes(df);
            && r.Ok?
            && IsSubsequence(r.value, Names(df))
            && (forall x :: x in r.value <==> x in Names(df) && exists j :: OccursAt(x, "Mount", j))
  {
    var names := Names(df);
    NamedVolcanoesFilter(df);
    var r := NamedVolcanoes(df).value;
    FilterMembers(names, MentionsMount());
    forall x
      ensures x in r <==> x in names && exists j :: OccursAt(x, "Mount", j)
    {
      ContainsOccurs(x, "Mount");
    }
  }

  /** The substring test is case-sensitive and matches inside longer words. */
  lemma MountExamples()
    ensures Contains("Mount Fuji", "Mount") && Contains("Mountain", "Mount")
    ensures !Contains("mount x", "Mount")
  {
    assert "Mount Fuji"[..5] == "Mount";
    assert "Mountain"[..5] == "Mount";
    var s := "mount x";
    assert s[..5] != "Mount" by { assert s[..5][0] == 'm'; }
    assert s[1..][..5] != "Mount" by { assert s[1..][..5][0] == 'o'; }
    assert s[1..][1..][..5] != "Mount" by { assert s[1..][1..][..5][0] == 'u'; }
    assert |s[1..][1..][1..]| < 5;
  }

  /** The substring filter keeps "Mount Fuji" and "Mountain" and drops "mount x". */
  lemma MountFilterExample()
    ensures Filter(["Mount Fuji", "mount x", "Mountain"], MentionsMount()) == ["Mount Fuji", "Mountain"]
  {
    MountExamples();
    MountFilterTail();
    var names := ["Mount Fuji", "mount x", "Mountain"];
    assert names[1..] == ["mount x", "Mountain"];
  }

  lemma MountFilterTail()
    ensures Filter(["mount x", "Mountain"], MentionsMount()) == ["Mountain"]
  {
    MountExamples();
    var names := ["mount x", "Mountain"];
    assert names[1..] == ["Mountain"] && names[1..][1..] == [];
    assert Filter(names[1..], MentionsMount()) == ["Mountain"];
  }

  /** "Mountain" is listed; "mount x" is not. */
  lemma NamedVolcanoesExample()
    ensures var a := Volcano(Some("Mount Fuji"), None, None, None, None, None, Null, None);
            var b := Volcano(Some("mount x"), None, None, None, None, None, Null, None);
            var c := Volcano(Some("Mountain"), None, None, None, None, None, Null, None);
            var r := NamedVolcanoes([a, b, c]);
            r.Ok? && r.value == ["Mount Fuji", "Mountain"]
  {
    var a := Volcano(Some("Mount Fuji"), None, None, None, None, None, Null, None);
    var b := Volcano(Some("mount x"), None, None, None, None, None, Null, None);
    var c := Volcano(Some("Mountain"), None, None, None, None, None, Null, None);
    var df := [a, b, c];
    assert AllNamed(df);
    NamedVolcanoesFilter(df);
    assert Names(df) == ["Mount Fuji", "mount x", "Mountain"];
    MountFilterExample();
  }

  /** Query 1 lists, for the chosen region, names containing "Mount" that
      belong to rows of that region (any row for the placeholder). */
  lemma Query1Named(df: seq<Volcano>, region: string)
    requires AllNamed(RegionSelection(df, region))
    ensures var r := NamedVolcanoes(RegionSelection(df, region));
            && r.Ok?
            && forall x :: x in r.value ==>
                 Contains(x, "Mount")
                 && exists v :: v in df && v.name == Some(x) && (region == RegionPlaceholder || v.region == Some(region))
  {
    var sel := RegionSelection(df, region);
    NamedVolcanoesSpec(sel);
    NamedVolcanoesFilter(sel);
    FilterMembers(Names(sel), MentionsMount());
    var r := NamedVolcanoes(sel).value;
    forall x | x in r
      ensures exists v :: v in df && v.name == Some(x) && (region == RegionPlaceholder || v.region == Some(region))
    {
      var i :| 0 <= i < |sel| && Names(sel)[i] == x;
      assert sel[i] in sel;
    }
  }

  // ---------------------------------------------------------------------
  // Query 4: known eruptions, region and types, then the top ten types

  /** The mask of one step of query 4; an unset step keeps every row. */
  function KnownStep(knownOnly: bool): Volcano -> bool {
    (v: Volcano) => !knownOnly || HasKnownEruption(v)
  }

  function RegionStep(region: string): Volcano -> bool {
    (v: Volcano) => region == RegionPlaceholder || v.region == Some(region)
  }

  function TypesStep(types: seq<string>): Volcano -> bool {
    (v: Volcano) => types == [] || (v.volcanoType.Some? && v.volcanoType.value in types)
  }

  /** All three steps as one mask. */
  function Query4Mask(types: seq<string>, region: string, knownOnly: bool): (m: Volcano -> bool)
    ensures forall v :: m(v) <==> (!knownOnly || HasKnownEruption(v))
                                  && (region == RegionPlaceholder || v.region == Some(region))
                                  && (types == [] || (v.volcanoType.Some? && v.volcanoType.value in types))
  {
    Both(Both(KnownStep(knownOnly), RegionStep(region)), TypesStep(types))
  }

  /** Rows kept by the single mask of query 4: those passing every step that
      is set; with no step set, the whole table. */
  lemma Query4MaskSpec(df: seq<Volcano>, types: seq<string>, region: string, knownOnly: bool)
    ensures var r := Filter(df, Query4Mask(types, region, knownOnly));
            && (forall v :: v in r <==>
                 (v in df && (!knownOnly || HasKnownEruption(v))
                  && (region == RegionPlaceholder || v.region == Some(region))
                  && (types == [] || (v.volcanoType.Some? && v.volcanoType.value in types))))
            && (!knownOnly && region == RegionPlaceholder && types == [] ==> r == df)
  {
    var m := Query4Mask(types, region, knownOnly);
    forall v
      ensures m(v) == ((!knownOnly || HasKnownEruption(v))
                       && (region == RegionPlaceholder || v.region == Some(region))
                       && (types == [] || (v.volcanoType.Some? && v.volcanoType.value in types)))
    {
    }
    FilterMembers(df, m);
    if !knownOnly && region == RegionPlaceholder && types == [] {
      FilterKeepsAll(df, Query4Mask(types, region, knownOnly));
    }
  }

  /** A mask applied to the result of an earlier one is their conjunction. */
  lemma AddStep(df: seq<Volcano>, p: Volcano -> bool, stage: seq<Volcano>, q: Volcano -> bool, next: seq<Volcano>)
    requires stage == Filter(df, p) && next == Filter(stage, q)
    ensures next == Filter(df, Both(p, q))
  {
    FilterConjunction(df, p, q, Both(p, q));
  }

  /** How many bars the type chart shows at most. */
  const TopTypes: nat := 10

  /** Query 4: start from a copy of the table, keep only rows with a known
      eruption when asked, then the chosen region, then the chosen types;
      count the types of what is left and keep the ten most common. */
  method Query4(df: seq<Volcano>, types: seq<string>, region: string, knownOnly: bool)
    returns (filtered: seq<Volcano>, top: seq<TypeCount>)
    ensures filtered == Filter(df, Query4Mask(types, region, knownOnly))
    ensures IsSubsequence(filtered, df)
    ensures forall v :: v in filtered <==>
              (v in df && (!knownOnly || HasKnownEruption(v))
               && (region == RegionPlaceholder || v.region == Some(region))
               && (types == [] || (v.volcanoType.Some? && v.volcanoType.value in types)))
    ensures !knownOnly && region == RegionPlaceholder && types == [] ==> filtered == df
    ensures top == Head(ValueCounts(TypeColumn(filtered)), TopTypes)
    ensures |top| <= TopTypes && SortedByCount(top) && DistinctKeys(top)
    ensures SumCounts(top) <= |filtered|
    ensures forall p :: p in top ==> p.count == Occurrences(TypeColumn(filtered), p.key) && p.count > 0
  {
    filtered := df;
    if knownOnly {
      filtered := KnownOnly(filtered);
      FilterCongruent(df, HasKnownEruption, KnownStep(knownOnly));
    } else {
      FilterKeepsAll(df, KnownStep(knownOnly));
    }
    var stage1 := filtered;
    if region != RegionPlaceholder {
      filtered := ByRegion(filtered, region);
      FilterCongruent(stage1, InRegion(region), RegionStep(region));
    } else {
      FilterKeepsAll(stage1, RegionStep(region));
    }
    AddStep(df, KnownStep(knownOnly), stage1, RegionStep(region), filtered);
    var stage2 := filtered;
    if types != [] {
      filtered := ByTypes(filtered, types);
      FilterCongruent(stage2, OfTypes(types), TypesStep(types));
    } else {
      FilterKeepsAll(stage2, TypesStep(types));
    }
    AddStep(df, Both(KnownStep(knownOnly), RegionStep(region)), stage2, TypesStep(types), filtered);
    Query4MaskSpec(df, types, region, knownOnly);
    var typeCounts := ValueCounts(TypeColumn(filtered));
    top := Head(typeCounts, TopTypes);
    TopCountsSpec(TypeColumn(filtered), TopTypes);
  }
}
