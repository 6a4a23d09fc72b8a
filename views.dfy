/**
 * The three views the dashboard derives once from the loaded table: the ten
 * best-selling rows, the ten platforms with the largest sales total, and the
 * per-year sums of the five sales columns.
 */
module Views {
  import opened Wrappers
  import opened Games
  import opened Ranking
  import opened Dedup

  const TOP_GLOBAL_COUNT: nat := 10
  const TOP_PLATFORM_COUNT: nat := 10

  // ---------------------------------------------------------------------
  // Top rows by global sales

  /**
   * The best-selling rows: ten of them (or all, if fewer), drawn from the
   * table, non-increasing in global sales with missing sales last, and no
   * row left out that sells more than a row kept.
   */
  function TopGlobalSales(t: Table): (r: Table)
    ensures |r| == Min(TOP_GLOBAL_COUNT, |t|)
    ensures multiset(r) <= multiset(t)
    ensures forall i, j :: 0 <= i < j < |r| && r[j].globalSales.Some? ==>
      r[i].globalSales.Some? && r[i].globalSales.value >= r[j].globalSales.value
    ensures forall i, x :: 0 <= i < |r| && x in multiset(t) - multiset(r) && x.globalSales.Some? ==>
      r[i].globalSales.Some? && r[i].globalSales.value >= x.globalSales.value
  {
    var r := Top(t, TOP_GLOBAL_COUNT, GlobalSalesKey);
    RankedBySales(t, r);
    r
  }

  /** What the ranking order means for rows: more sales first, missing sales last. */
  lemma RankedBySales(t: Table, r: Table)
    requires SortedBy(r, GlobalSalesKey)
    requires forall i, x :: 0 <= i < |r| && x in multiset(t) - multiset(r) ==>
      Before(GlobalSalesKey(r[i]), GlobalSalesKey(x))
    ensures forall i, j :: 0 <= i < j < |r| && r[j].globalSales.Some? ==>
      r[i].globalSales.Some? && r[i].globalSales.value >= r[j].globalSales.value
    ensures forall i, x :: 0 <= i < |r| && x in multiset(t) - multiset(r) && x.globalSales.Some? ==>
      r[i].globalSales.Some? && r[i].globalSales.value >= x.globalSales.value
  {
    forall i, j | 0 <= i < j < |r| && r[j].globalSales.Some?
      ensures r[i].globalSales.Some? && r[i].globalSales.value >= r[j].globalSales.value
    {
      assert Before(GlobalSalesKey(r[i]), GlobalSalesKey(r[j]));
    }
    forall i, x | 0 <= i < |r| && x in multiset(t) - multiset(r) && x.globalSales.Some?
      ensures r[i].globalSales.Some? && r[i].globalSales.value >= x.globalSales.value
    {
      assert Before(GlobalSalesKey(r[i]), GlobalSalesKey(x));
    }
  }

  // ---------------------------------------------------------------------
  // Sales by platform

  datatype PlatformTotal = PlatformTotal(platform: string, total: nat)

  /** The sum of global sales over the rows of platform p. */
  function PlatformSales(t: Table, p: string): nat
  {
    if t == [] then 0
    else (if t[0].platform == Some(p) then OrZero(t[0].globalSales) else 0) + PlatformSales(t[1..], p)
  }

  /** The distinct platforms of the table; rows without a platform form no group. */
  function Platforms(t: Table): (ps: seq<string>)
    ensures NoDuplicates(ps)
    ensures forall i :: 0 <= i < |ps| ==> exists k :: 0 <= k < |t| && t[k].platform == Some(ps[i])
    ensures forall k :: 0 <= k < |t| && t[k].platform.Some? ==> t[k].platform.value in ps
  {
    var column := Column(t, PlatformOf);
    var ps := DistinctPresent(column);
    assert forall i :: 0 <= i < |ps| ==> Some(ps[i]) in column;
    ps
  }

  function PlatformKey(e: PlatformTotal): string
  {
    e.platform
  }

  /** The platforms of a list of totals, in list order. */
  function PlatformsOf(r: seq<PlatformTotal>): seq<string>
  {
    Column(r, PlatformKey)
  }

  function SumTotals(r: seq<PlatformTotal>): nat
  {
    if r == [] then 0 else r[0].total + SumTotals(r[1..])
  }

  /** One group per platform, before ranking. */
  function PlatformGroups(t: Table): (g: seq<PlatformTotal>)
    ensures PlatformsOf(g) == Platforms(t)
    ensures forall i :: 0 <= i < |g| ==> g[i].total == PlatformSales(t, g[i].platform)
  {
    var ps := Platforms(t);
    var g := seq(|ps|, i requires 0 <= i < |ps| => PlatformTotal(ps[i], PlatformSales(t, ps[i])));
    assert PlatformsOf(g) == ps;
    g
  }

  function TotalKey(e: PlatformTotal): Option<nat>
  {
    Some(e.total)
  }

  /**
   * The ten platforms (or all, if fewer) with the largest sales totals,
   * each total the sum over exactly that platform's rows, totals
   * non-increasing, no platform twice, and no platform left out whose total
   * exceeds one kept.
   */
  function SalesByPlatform(t: Table): (r: seq<PlatformTotal>)
    ensures |r| == Min(TOP_PLATFORM_COUNT, |Platforms(t)|)
    ensures NoDuplicates(PlatformsOf(r))
    ensures forall i :: 0 <= i < |r| ==>
      r[i].total == PlatformSales(t, r[i].platform) &&
      exists k :: 0 <= k < |t| && t[k].platform == Some(r[i].platform)
    ensures forall i, j :: 0 <= i < j < |r| ==> r[i].total >= r[j].total
    ensures forall i, k :: (0 <= i < |r| && 0 <= k < |t| && t[k].platform.Some? &&
      t[k].platform.value !in PlatformsOf(r)) ==> PlatformSales(t, t[k].platform.value) <= r[i].total
    ensures SumTotals(r) <= TotalGlobalSales(t)
  {
    var groups := PlatformGroups(t);
    var r := Top(groups, TOP_PLATFORM_COUNT, TotalKey);
    GroupsFromTable(t, groups, r);
    TotalsOrdered(r);
    GroupsComplete(t, groups, r);
    SumTotalsOfGroups(t, r);
    SalesOnPlatformsBound(t, PlatformsOf(r));
    r
  }

  /** The ranked groups are groups of the table, with distinct platforms. */
  lemma GroupsFromTable(t: Table, groups: seq<PlatformTotal>, r: seq<PlatformTotal>)
    requires groups == PlatformGroups(t) && multiset(r) <= multiset(groups)
    ensures NoDuplicates(PlatformsOf(r))
    ensures forall i :: 0 <= i < |r| ==>
      r[i].total == PlatformSales(t, r[i].platform) &&
      exists k :: 0 <= k < |t| && t[k].platform == Some(r[i].platform)
  {
    DrawnFrom(groups, r);
    DistinctPlatforms(groups, r);
    forall i | 0 <= i < |r|
      ensures exists k :: 0 <= k < |t| && t[k].platform == Some(r[i].platform)
    {
      var a := FirstIndex(groups, r[i]);
      assert Platforms(t)[a] == PlatformsOf(groups)[a];
    }
  }

  /** Groups drawn from groups with distinct platforms have distinct platforms. */
  lemma DistinctPlatforms(groups: seq<PlatformTotal>, r: seq<PlatformTotal>)
    requires NoDuplicates(PlatformsOf(groups)) && multiset(r) <= multiset(groups)
    ensures NoDuplicates(PlatformsOf(r))
  {
    var keys := PlatformsOf(groups);
    assert NoDuplicates(groups) by {
      forall i, j | 0 <= i < j < |groups| ensures groups[i] != groups[j] {
        assert keys[i] != keys[j];
      }
    }
    SubMultisetNoDuplicates(r, groups);
    DrawnFrom(groups, r);
    forall i, j | 0 <= i < j < |r| ensures r[i].platform != r[j].platform {
      var a :| 0 <= a < |groups| && groups[a] == r[i];
      var b :| 0 <= b < |groups| && groups[b] == r[j];
      assert keys[a] == r[i].platform && keys[b] == r[j].platform;
    }
  }

  lemma TotalsOrdered(r: seq<PlatformTotal>)
    requires SortedBy(r, TotalKey)
    ensures forall i, j :: 0 <= i < j < |r| ==> r[i].total >= r[j].total
  {
    forall i, j | 0 <= i < j < |r| ensures r[i].total >= r[j].total {
      assert Before(TotalKey(r[i]), TotalKey(r[j]));
    }
  }

  /** No platform left out has a larger total than a platform kept. */
  lemma GroupsComplete(t: Table, groups: seq<PlatformTotal>, r: seq<PlatformTotal>)
    requires groups == PlatformGroups(t)
    requires forall i, x :: 0 <= i < |r| && x in multiset(groups) - multiset(r) ==> Before(TotalKey(r[i]), TotalKey(x))
    ensures forall i, k :: (0 <= i < |r| && 0 <= k < |t| && t[k].platform.Some? &&
      t[k].platform.value !in PlatformsOf(r)) ==> PlatformSales(t, t[k].platform.value) <= r[i].total
  {
    forall i, k | 0 <= i < |r| && 0 <= k < |t| && t[k].platform.Some? && t[k].platform.value !in PlatformsOf(r)
      ensures PlatformSales(t, t[k].platform.value) <= r[i].total
    {
      var x := LeftOutGroup(t, groups, r, t[k].platform.value);
      assert Before(TotalKey(r[i]), TotalKey(x));
    }
  }

  /** The group of a platform missing from r is one of the groups r left out. */
  lemma LeftOutGroup(t: Table, groups: seq<PlatformTotal>, r: seq<PlatformTotal>, p: string)
      returns (x: PlatformTotal)
    requires groups == PlatformGroups(t)
    requires p in Platforms(t) && p !in PlatformsOf(r)
    ensures x in multiset(groups) - multiset(r)
    ensures x.total == PlatformSales(t, p)
  {
    var ps := Platforms(t);
    var a :| 0 <= a < |ps| && ps[a] == p;
    x := groups[a];
    assert x.platform == PlatformsOf(groups)[a];
    assert x in multiset(groups);
    forall j | 0 <= j < |r| ensures r[j] != x {
      assert PlatformsOf(r)[j] == r[j].platform;
    }
  }

  /** The sum of global sales over the rows whose platform is one of ps. */
  function SalesOnPlatforms(t: Table, ps: seq<string>): nat
  {
    if t == [] then 0
    else
      var here := if t[0].platform.Some? && t[0].platform.value in ps then OrZero(t[0].globalSales) else 0;
      here + SalesOnPlatforms(t[1..], ps)
  }

  /** The sum of global sales over the rows that have a platform. */
  function SalesWithPlatform(t: Table): nat
  {
    if t == [] then 0
    else (if t[0].platform.Some? then OrZero(t[0].globalSales) else 0) + SalesWithPlatform(t[1..])
  }

  lemma {:induction false} SplitPlatform(t: Table, p: string, ps: seq<string>)
    requires p !in ps
    ensures SalesOnPlatforms(t, [p] + ps) == PlatformSales(t, p) + SalesOnPlatforms(t, ps)
  {
    if t != [] {
      SplitPlatform(t[1..], p, ps);
    }
  }

  lemma {:induction false} SalesOnPlatformsBound(t: Table, ps: seq<string>)
    ensures SalesOnPlatforms(t, ps) <= TotalGlobalSales(t)
  {
    if t != [] {
      SalesOnPlatformsBound(t[1..], ps);
    }
  }

  /** Totals over distinct platforms add up to the sales of the rows on those platforms. */
  lemma {:induction false} SalesOnNoPlatforms(t: Table)
    ensures SalesOnPlatforms(t, []) == 0
  {
    if t != [] {
      SalesOnNoPlatforms(t[1..]);
    }
  }

  lemma {:induction false} SumTotalsOfGroups(t: Table, r: seq<PlatformTotal>)
    requires NoDuplicates(PlatformsOf(r))
    requires forall i :: 0 <= i < |r| ==> r[i].total == PlatformSales(t, r[i].platform)
    ensures SumTotals(r) == SalesOnPlatforms(t, PlatformsOf(r))
  {
    if r == [] {
      assert PlatformsOf(r) == [];
      SalesOnNoPlatforms(t);
    } else {
      var rest := PlatformsOf(r[1..]);
      DropFirstGroup(r);
      assert forall i :: 0 <= i < |r[1..]| ==> r[1..][i].total == PlatformSales(t, r[1..][i].platform) by {
        forall i | 0 <= i < |r[1..]| ensures r[1..][i].total == PlatformSales(t, r[1..][i].platform) {
          assert r[1..][i] == r[i + 1];
        }
      }
      SumTotalsOfGroups(t, r[1..]);
      SplitPlatform(t, r[0].platform, rest);
      calc {
        SumTotals(r);
        r[0].total + SumTotals(r[1..]);
        PlatformSales(t, r[0].platform) + SalesOnPlatforms(t, rest);
        SalesOnPlatforms(t, [r[0].platform] + rest);
      }
    }
  }

  /** The platforms after the first group are the rest of the list, still distinct. */
  lemma DropFirstGroup(r: seq<PlatformTotal>)
    requires r != [] && NoDuplicates(PlatformsOf(r))
    ensures PlatformsOf(r) == [r[0].platform] + PlatformsOf(r[1..])
    ensures r[0].platform !in PlatformsOf(r[1..]) && NoDuplicates(PlatformsOf(r[1..]))
  {
    var all, rest := PlatformsOf(r), PlatformsOf(r[1..]);
    assert all == [r[0].platform] + rest;
    forall j | 0 <= j < |rest| ensures rest[j] != r[0].platform {
      assert rest[j] == all[j + 1];
    }
    forall i, j | 0 <= i < j < |rest| ensures rest[i] != rest[j] {
      assert rest[i] == all[i + 1] && rest[j] == all[j + 1];
    }
  }

  lemma {:induction false} SalesOnAllPlatforms(t: Table, ps: seq<string>)
    requires forall k :: 0 <= k < |t| && t[k].platform.Some? ==> t[k].platform.value in ps
    ensures SalesOnPlatforms(t, ps) == SalesWithPlatform(t)
  {
    if t != [] {
      SalesOnAllPlatforms(t[1..], ps);
    }
  }

  /**
   * Before ranking, the platform groups partition the rows that have a
   * platform: their totals add up to exactly those rows' sales.
   */
  lemma GroupsPartitionSales(t: Table)
    ensures SumTotals(PlatformGroups(t)) == SalesWithPlatform(t)
  {
    var groups := PlatformGroups(t);
    SumTotalsOfGroups(t, groups);
    SalesOnAllPlatforms(t, Platforms(t));
  }

  // ---------------------------------------------------------------------
  // Yearly sales trend

  /** The five summed sales columns: global, North America, Europe, Japan, other. */
  datatype SalesTotals = SalesTotals(global: nat, na: nat, eu: nat, jp: nat, other: nat)

  const NO_SALES := SalesTotals(0, 0, 0, 0, 0)

  function Plus(a: SalesTotals, b: SalesTotals): SalesTotals
  {
    SalesTotals(a.global + b.global, a.na + b.na, a.eu + b.eu, a.jp + b.jp, a.other + b.other)
  }

  /** A row's contribution to the sums; missing figures contribute nothing. */
  function RowSales(r: Record): SalesTotals
  {
    SalesTotals(OrZero(r.globalSales), OrZero(r.naSales), OrZero(r.euSales),
                OrZero(r.jpSales), OrZero(r.otherSales))
  }

  /** The column sums over exactly the rows released in year y. */
  function YearSales(t: Table, y: int): SalesTotals
  {
    if t == [] then NO_SALES
    else if t[0].year == Some(y) then Plus(YearSales(t[1..], y), RowSales(t[0]))
    else YearSales(t[1..], y)
  }

  datatype YearRow = YearRow(year: int, sales: SalesTotals)

  predicate StrictlyAscending(tr: seq<YearRow>)
  {
    forall i, j :: 0 <= i < j < |tr| ==> tr[i].year < tr[j].year
  }

  function YearsOf(tr: seq<YearRow>): set<int>
  {
    set i | 0 <= i < |tr| :: tr[i].year
  }

  /** The years in which some row of the table was released. */
  function ReleaseYears(t: Table): set<int>
  {
    set k | 0 <= k < |t| && t[k].year.Some? :: t[k].year.value
  }

  /** The sums recorded for year y, or none if the year has no entry. */
  function TotalsAt(tr: seq<YearRow>, y: int): SalesTotals
  {
    if tr == [] then NO_SALES
    else if tr[0].year == y then tr[0].sales
    else TotalsAt(tr[1..], y)
  }

  lemma {:induction false} TotalsAtEntry(tr: seq<YearRow>, i: nat)
    requires StrictlyAscending(tr) && i < |tr|
    ensures TotalsAt(tr, tr[i].year) == tr[i].sales
  {
    if i > 0 {
      assert tr[0].year < tr[i].year;
      TotalsAtEntry(tr[1..], i - 1);
    }
  }

  lemma {:induction false} TotalsAtAbsent(tr: seq<YearRow>, y: int)
    requires y !in YearsOf(tr)
    ensures TotalsAt(tr, y) == NO_SALES
  {
    if tr != [] {
      assert tr[0].year in YearsOf(tr);
      assert YearsOf(tr[1..]) <= YearsOf(tr) by {
        forall z | z in YearsOf(tr[1..]) ensures z in YearsOf(tr) {
          var i :| 0 <= i < |tr[1..]| && tr[1..][i].year == z;
          assert tr[i + 1].year == z;
        }
      }
      TotalsAtAbsent(tr[1..], y);
    }
  }

  /** The trend after adding sums a for year y: ascending, one more year at most, only y's sums changed. */
  ghost predicate AddedTo(tr: seq<YearRow>, y: int, a: SalesTotals, r: seq<YearRow>)
  {
    && StrictlyAscending(r)
    && YearsOf(r) == YearsOf(tr) + {y}
    && forall z :: TotalsAt(r, z) == if z == y then Plus(TotalsAt(tr, y), a) else TotalsAt(tr, z)
  }

  /** Adds one row's sums to the entry of year y, creating it in its ascending place if needed. */
  function AddToTrend(tr: seq<YearRow>, y: int, a: SalesTotals): (r: seq<YearRow>)
    requires StrictlyAscending(tr)
    ensures StrictlyAscending(r)
    ensures YearsOf(r) == YearsOf(tr) + {y}
    ensures forall z :: TotalsAt(r, z) == if z == y then Plus(TotalsAt(tr, y), a) else TotalsAt(tr, z)
  {
    if tr == [] || y < tr[0].year then
      AddInFront(tr, y, a);
      [YearRow(y, a)] + tr
    else if y == tr[0].year then
      AddToFirst(tr, a);
      [YearRow(y, Plus(tr[0].sales, a))] + tr[1..]
    else
      var rest := AddToTrend(tr[1..], y, a);
      AddBehindFirst(tr, y, a, rest);
      [tr[0]] + rest
  }

  lemma AddInFront(tr: seq<YearRow>, y: int, a: SalesTotals)
    requires StrictlyAscending(tr) && (tr == [] || y < tr[0].year)
    ensures AddedTo(tr, y, a, [YearRow(y, a)] + tr)
  {
    var r := [YearRow(y, a)] + tr;
    forall i | 0 <= i < |tr| ensures tr[i].year != y {
      assert i == 0 || tr[0].year < tr[i].year;
    }
    TotalsAtAbsent(tr, y);
    YearsOfCons(YearRow(y, a), tr);
    assert StrictlyAscending(r) by {
      forall i, j | 0 <= i < j < |r| ensures r[i].year < r[j].year {
        assert r[j] == tr[j - 1];
        if i > 0 {
          assert r[i] == tr[i - 1];
        } else if j > 1 {
          assert tr[0].year < tr[j - 1].year;
        }
      }
    }
  }

  lemma AddToFirst(tr: seq<YearRow>, a: SalesTotals)
    requires StrictlyAscending(tr) && tr != []
    ensures AddedTo(tr, tr[0].year, a, [YearRow(tr[0].year, Plus(tr[0].sales, a))] + tr[1..])
  {
    var y := tr[0].year;
    var r := [YearRow(y, Plus(tr[0].sales, a))] + tr[1..];
    assert tr == [tr[0]] + tr[1..];
    YearsOfCons(r[0], tr[1..]);
    YearsOfCons(tr[0], tr[1..]);
    assert StrictlyAscending(r) by {
      forall i, j | 0 <= i < j < |r| ensures r[i].year < r[j].year {
        assert r[j] == tr[j];
        if i > 0 {
          assert r[i] == tr[i];
        }
      }
    }
  }

  lemma AddBehindFirst(tr: seq<YearRow>, y: int, a: SalesTotals, rest: seq<YearRow>)
    requires StrictlyAscending(tr) && tr != [] && tr[0].year < y
    requires StrictlyAscending(tr[1..]) && AddedTo(tr[1..], y, a, rest)
    ensures AddedTo(tr, y, a, [tr[0]] + rest)
  {
    var r := [tr[0]] + rest;
    assert tr == [tr[0]] + tr[1..];
    YearsOfCons(tr[0], rest);
    YearsOfCons(tr[0], tr[1..]);
    forall z | z in YearsOf(rest) ensures tr[0].year < z {
      if z != y {
        var i :| 0 <= i < |tr[1..]| && tr[1..][i].year == z;
        assert tr[1..][i] == tr[i + 1];
      }
    }
    assert StrictlyAscending(r) by {
      forall i, j | 0 <= i < j < |r| ensures r[i].year < r[j].year {
        assert r[j] == rest[j - 1];
        assert rest[j - 1].year in YearsOf(rest);
        if i > 0 {
          assert r[i] == rest[i - 1];
        }
      }
    }
  }

  lemma YearsOfCons(e: YearRow, tr: seq<YearRow>)
    ensures YearsOf([e] + tr) == {e.year} + YearsOf(tr)
  {
    var r := [e] + tr;
    forall z | z in YearsOf(r) ensures z in {e.year} + YearsOf(tr) {
      var i :| 0 <= i < |r| && r[i].year == z;
      if i > 0 {
        assert tr[i - 1].year == z;
      }
    }
    forall z | z in YearsOf(tr) ensures z in YearsOf(r) {
      var i :| 0 <= i < |tr| && tr[i].year == z;
      assert r[i + 1].year == z;
    }
    assert r[0].year == e.year;
  }

  lemma ReleaseYearsCons(t: Table)
    requires t != []
    ensures ReleaseYears(t) == ReleaseYears(t[1..]) + (if t[0].year.Some? then {t[0].year.value} else {})
  {
    forall z | z in ReleaseYears(t)
      ensures z in ReleaseYears(t[1..]) + (if t[0].year.Some? then {t[0].year.value} else {})
    {
      var k :| 0 <= k < |t| && t[k].year.Some? && t[k].year.value == z;
      if k > 0 {
        assert t[1..][k - 1] == t[k];
      }
    }
    forall z | z in ReleaseYears(t[1..]) ensures z in ReleaseYears(t) {
      var k :| 0 <= k < |t[1..]| && t[1..][k].year.Some? && t[1..][k].year.value == z;
      assert t[k + 1] == t[1..][k];
    }
  }

  /** Groups the rows by release year; rows without a year are dropped. */
  function Trend(t: Table): (r: seq<YearRow>)
    ensures StrictlyAscending(r)
    ensures YearsOf(r) == ReleaseYears(t)
    ensures forall y :: TotalsAt(r, y) == YearSales(t, y)
  {
    if t == [] then
      assert YearsOf([]) == {};
      []
    else
      ReleaseYearsCons(t);
      var rest := Trend(t[1..]);
      match t[0].year
      case None => rest
      case Some(y) => AddToTrend(rest, y, RowSales(t[0]))
  }

  /**
   * The yearly trend: one entry per release year, years strictly ascending,
   * every year of the table present, and each entry's five columns the sums
   * over exactly the rows released that year.
   */
  function YearlyTrend(t: Table): (r: seq<YearRow>)
    ensures StrictlyAscending(r)
    ensures forall k :: 0 <= k < |t| && t[k].year.Some? ==> exists i :: 0 <= i < |r| && r[i].year == t[k].year.value
    ensures forall i :: 0 <= i < |r| ==> exists k :: 0 <= k < |t| && t[k].year == Some(r[i].year)
    ensures forall i :: 0 <= i < |r| ==> r[i].sales == YearSales(t, r[i].year)
  {
    var r := Trend(t);
    forall i | 0 <= i < |r| ensures r[i].sales == YearSales(t, r[i].year) {
      TotalsAtEntry(r, i);
    }
    forall k | 0 <= k < |t| && t[k].year.Some?
      ensures exists i :: 0 <= i < |r| && r[i].year == t[k].year.value
    {
      assert t[k].year.value in ReleaseYears(t);
    }
    forall i | 0 <= i < |r| ensures exists k :: 0 <= k < |t| && t[k].year == Some(r[i].year) {
      assert r[i].year in YearsOf(r);
    }
    r
  }

  function WithYear(t: Table): (f: Table)
    ensures forall k :: 0 <= k < |f| ==> f[k].year.Some?
  {
    if t == [] then []
    else if t[0].year.Some? then [t[0]] + WithYear(t[1..])
    else WithYear(t[1..])
  }

  /** Rows with a missing year contribute to no entry: dropping them leaves the trend as it was. */
  lemma {:induction false} MissingYearsIgnored(t: Table)
    ensures YearlyTrend(WithYear(t)) == YearlyTrend(t)
  {
    TrendWithYear(t);
  }

  lemma {:induction false} TrendWithYear(t: Table)
    ensures Trend(WithYear(t)) == Trend(t)
  {
    if t != [] {
      TrendWithYear(t[1..]);
      if t[0].year.Some? {
        var w := [t[0]] + WithYear(t[1..]);
        assert w[1..] == WithYear(t[1..]);
      }
    }
  }
}
