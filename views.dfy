/**
 * The small aggregation rules the dashboard's views apply to the filtered
 * listings and to the crime table.
 */
module Views {
  import opened Wrappers
  import opened Listings
  import opened Text
  import opened Filters

  // ---------------------------------------------------------------- amenities

  function CommaCount(s: string): nat {
    if s == [] then 0 else (if s[0] == ',' then 1 else 0) + CommaCount(s[1..])
  }

  /** `amenities.str.count(',') + 1`. */
  function AmenityCount(amenities: string): nat {
    CommaCount(amenities) + 1
  }

  /** The `n_amenities` cell: NaN when the listing has no amenities text. */
  function AmenityCountOf(amenities: Option<string>): Option<nat> {
    match amenities
    case Some(a) => Some(AmenityCount(a))
    case None => None
  }

  /** Amenity names separated by commas. */
  function JoinWithCommas(items: seq<string>): string {
    if items == [] then [] else if |items| == 1 then items[0] else items[0] + [','] + JoinWithCommas(items[1..])
  }

  lemma {:induction false} CommaCountAppend(a: string, b: string)
    ensures CommaCount(a + b) == CommaCount(a) + CommaCount(b)
  {
    if a != [] {
      assert (a + b)[1..] == a[1..] + b;
      CommaCountAppend(a[1..], b);
    } else {
      assert a + b == b;
    }
  }

  lemma {:induction false} CommaCountNone(s: string)
    requires ',' !in s
    ensures CommaCount(s) == 0
  {
    if s != [] {
      assert s[0] in s;
      assert forall c :: c in s[1..] ==> c in s;
      CommaCountNone(s[1..]);
    }
  }

  /** Counting commas plus one recovers the number of comma-free names joined by commas. */
  lemma {:induction false} AmenityCountOfJoin(items: seq<string>)
    requires items != []
    requires forall i :: 0 <= i < |items| ==> ',' !in items[i]
    ensures AmenityCount(JoinWithCommas(items)) == |items|
  {
    CommaCountNone(items[0]);
    if |items| > 1 {
      AmenityCountOfJoin(items[1..]);
      CommaCountAppend(items[0] + [','], JoinWithCommas(items[1..]));
      CommaCountAppend(items[0], [',']);
    }
  }

  // ----------------------------------------------------------- active listings

  /** The listings rented more than 30 days a year. */
  function ActiveListings(rows: seq<Listing>): (active: seq<Listing>)
    ensures |active| <= |rows|
    ensures forall x :: x in active <==> x in rows && x.daysRented.Some? && x.daysRented.value > ActiveDaysThreshold
  {
    Where(rows, Active)
  }

  // --------------------------------------------------------------- competition

  /** Maximum number of bars in a ranking. */
  const TopN: nat := 15

  datatype GroupCount = GroupCount(neighbourhood: string, count: nat)

  /** `groupby('neighbourhood')['id'].count()` for one group: rows of that neighbourhood with an id. */
  function IdCount(rows: seq<Listing>, n: string): nat {
    if rows == [] then 0
    else (if rows[0].neighbourhood == Some(n) && rows[0].id.Some? then 1 else 0) + IdCount(rows[1..], n)
  }

  /** One group per listed name, in the order given. */
  function Tally(rows: seq<Listing>, names: seq<string>): seq<GroupCount> {
    if names == [] then [] else [GroupCount(names[0], IdCount(rows, names[0]))] + Tally(rows, names[1..])
  }

  /** The per-neighbourhood counts; pandas groups in sorted key order. */
  function GroupCounts(rows: seq<Listing>): seq<GroupCount> {
    Tally(rows, Universe(rows))
  }

  predicate NonIncreasing(gs: seq<GroupCount>) {
    forall i, j :: 0 <= i < j < |gs| ==> gs[i].count >= gs[j].count
  }

  predicate DistinctNames(gs: seq<GroupCount>) {
    forall i, j :: 0 <= i < j < |gs| ==> gs[i].neighbourhood != gs[j].neighbourhood
  }

  /** Places `g` before the first group it does not fall below. */
  function InsertByCount(g: GroupCount, gs: seq<GroupCount>): seq<GroupCount> {
    if gs == [] || g.count >= gs[0].count then [g] + gs else [gs[0]] + InsertByCount(g, gs[1..])
  }

  /** `sort_values(ascending=False)` on the counts. */
  function SortByCount(gs: seq<GroupCount>): seq<GroupCount> {
    if gs == [] then [] else InsertByCount(gs[0], SortByCount(gs[1..]))
  }

  /** `sort_values(by=count, ascending=False).head(15)`. */
  function TopCompetition(rows: seq<Listing>): seq<GroupCount> {
    var sorted := SortByCount(GroupCounts(rows));
    if |sorted| <= TopN then sorted else sorted[..TopN]
  }

  lemma {:induction false} InsertByCountElements(g: GroupCount, gs: seq<GroupCount>)
    ensures |InsertByCount(g, gs)| == |gs| + 1
    ensures forall x :: x in InsertByCount(g, gs) <==> x == g || x in gs
  {
    if gs != [] && g.count < gs[0].count {
      InsertByCountElements(g, gs[1..]);
      assert gs == [gs[0]] + gs[1..];
    }
  }

  lemma PrependOrdered(x: GroupCount, gs: seq<GroupCount>)
    requires NonIncreasing(gs)
    requires forall y :: y in gs ==> x.count >= y.count
    ensures NonIncreasing([x] + gs)
  {
    var r := [x] + gs;
    forall i, j | 0 <= i < j < |r| ensures r[i].count >= r[j].count {
      assert r[j] == gs[j - 1] && gs[j - 1] in gs;
      if i > 0 {
        assert r[i] == gs[i - 1];
      }
    }
  }

  lemma {:induction false} InsertByCountOrdered(g: GroupCount, gs: seq<GroupCount>)
    requires NonIncreasing(gs)
    ensures NonIncreasing(InsertByCount(g, gs))
  {
    if gs == [] || g.count >= gs[0].count {
      forall y | y in gs ensures g.count >= y.count {
        var k :| 0 <= k < |gs| && gs[k] == y;
      }
      PrependOrdered(g, gs);
    } else {
      InsertByCountOrdered(g, gs[1..]);
      var rest := InsertByCount(g, gs[1..]);
      InsertByCountElements(g, gs[1..]);
      forall x | x in rest ensures gs[0].count >= x.count {
        if x != g {
          var k :| 0 <= k < |gs| - 1 && gs[1..][k] == x;
          assert gs[k + 1] == x;
        }
      }
      PrependOrdered(gs[0], rest);
    }
  }

  lemma {:induction false} InsertByCountDistinct(g: GroupCount, gs: seq<GroupCount>)
    requires DistinctNames(gs)
    requires forall x :: x in gs ==> x.neighbourhood != g.neighbourhood
    ensures DistinctNames(InsertByCount(g, gs))
  {
    var r := InsertByCount(g, gs);
    if gs == [] || g.count >= gs[0].count {
      forall i, j | 0 <= i < j < |r| ensures r[i].neighbourhood != r[j].neighbourhood {
        if i == 0 {
          assert r[j] == gs[j - 1] && gs[j - 1] in gs;
        }
      }
    } else {
      assert gs == [gs[0]] + gs[1..];
      InsertByCountDistinct(g, gs[1..]);
      var rest := InsertByCount(g, gs[1..]);
      InsertByCountElements(g, gs[1..]);
      forall x | x in rest ensures x.neighbourhood != gs[0].neighbourhood {
        if x != g {
          var k :| 0 <= k < |gs| - 1 && gs[1..][k] == x;
          assert gs[k + 1] == x;
        }
      }
      forall i, j | 0 <= i < j < |r| ensures r[i].neighbourhood != r[j].neighbourhood {
        if i == 0 {
          assert r[j] == rest[j - 1] && rest[j - 1] in rest;
        } else {
          assert r[i] == rest[i - 1] && r[j] == rest[j - 1];
        }
      }
    }
  }

  /** Sorting by count keeps every group, keeps names distinct, and orders the counts from high to low. */
  lemma {:induction false} SortByCountSpec(gs: seq<GroupCount>)
    ensures var r := SortByCount(gs);
      |r| == |gs| && NonIncreasing(r) && (forall x :: x in r <==> x in gs) &&
      (DistinctNames(gs) ==> DistinctNames(r))
  {
    if gs != [] {
      SortByCountSpec(gs[1..]);
      var rest := SortByCount(gs[1..]);
      InsertByCountElements(gs[0], rest);
      InsertByCountOrdered(gs[0], rest);
      assert gs == [gs[0]] + gs[1..];
      if DistinctNames(gs) {
        forall x | x in rest ensures x.neighbourhood != gs[0].neighbourhood {
          var k :| 0 <= k < |gs| - 1 && gs[1..][k] == x;
          assert gs[k + 1] == x;
        }
        InsertByCountDistinct(gs[0], rest);
      }
    }
  }

  lemma {:induction false} TallySpec(rows: seq<Listing>, names: seq<string>)
    requires StrictlySorted(names)
    ensures var gs := Tally(rows, names);
      |gs| == |names| && DistinctNames(gs) &&
      (forall g :: g in gs <==> g.neighbourhood in names && g.count == IdCount(rows, g.neighbourhood))
  {
    if names != [] {
      TallySpec(rows, names[1..]);
      var gs := Tally(rows, names);
      assert names == [names[0]] + names[1..];
      forall i, j | 0 <= i < j < |gs| ensures gs[i].neighbourhood != gs[j].neighbourhood {
        assert gs[i].neighbourhood == names[i] && gs[j].neighbourhood == names[j] by {
          TallyAt(rows, names, i);
          TallyAt(rows, names, j);
        }
        LexLessIrreflexive(names[i]);
      }
    }
  }

  lemma {:induction false} TallyAt(rows: seq<Listing>, names: seq<string>, i: nat)
    requires i < |names|
    ensures |Tally(rows, names)| == |names| && Tally(rows, names)[i].neighbourhood == names[i]
  {
    if i > 0 {
      TallyAt(rows, names[1..], i - 1);
    } else if |names| > 1 {
      TallyAt(rows, names[1..], 0);
    }
  }

  function Names(gs: seq<GroupCount>): set<string> {
    set g | g in gs :: g.neighbourhood
  }

  /**
   * All neighbourhoods ranked: one entry per neighbourhood, each with its own
   * count of listings, highest counts first.
   */
  lemma RankingSpec(rows: seq<Listing>)
    ensures var sorted := SortByCount(GroupCounts(rows));
      |sorted| == |NeighbourhoodSet(rows)| && NonIncreasing(sorted) && DistinctNames(sorted) &&
      forall g :: g in sorted <==> g.neighbourhood in NeighbourhoodSet(rows) && g.count == IdCount(rows, g.neighbourhood)
  {
    var u := Universe(rows);
    UniverseSpec(rows);
    UniqueLength(u, NeighbourhoodSet(rows));
    TallySpec(rows, u);
    SortByCountSpec(GroupCounts(rows));
  }

  /**
   * The competition ranking: at most 15 neighbourhoods, each once, each with
   * its own count of listings, highest counts first. The order among equal
   * counts is not part of the contract.
   */
  lemma TopCompetitionShape(rows: seq<Listing>)
    ensures var top := TopCompetition(rows);
      |top| == (if |NeighbourhoodSet(rows)| <= TopN then |NeighbourhoodSet(rows)| else TopN) &&
      NonIncreasing(top) && DistinctNames(top) &&
      (forall g :: g in top ==> g.neighbourhood in NeighbourhoodSet(rows) && g.count == IdCount(rows, g.neighbourhood))
  {
    RankingSpec(rows);
    var sorted := SortByCount(GroupCounts(rows));
    var top := TopCompetition(rows);
    forall g | g in top ensures g in sorted {
      var k :| 0 <= k < |top| && top[k] == g;
      assert sorted[k] == g;
    }
  }

  /** A neighbourhood left out of the ranking has no more listings than the last one shown. */
  lemma TopCompetitionCutoff(rows: seq<Listing>, n: string)
    requires n in NeighbourhoodSet(rows)
    ensures var top := TopCompetition(rows);
      n in Names(top) || (|top| == TopN && IdCount(rows, n) <= top[TopN - 1].count)
  {
    RankingSpec(rows);
    var sorted := SortByCount(GroupCounts(rows));
    var top := TopCompetition(rows);
    var g := GroupCount(n, IdCount(rows, n));
    var k :| 0 <= k < |sorted| && sorted[k] == g;
    if k < |top| {
      assert top[k] == g;
    } else {
      assert sorted[TopN - 1].count >= sorted[k].count;
    }
  }

  /** A strictly sorted list has as many entries as the set of its elements. */
  lemma {:induction false} UniqueLength(s: seq<string>, elems: set<string>)
    requires StrictlySorted(s)
    requires forall y :: y in s <==> y in elems
    ensures |s| == |elems|
  {
    if s != [] {
      var rest := elems - {s[0]};
      forall y ensures y in s[1..] <==> y in rest {
        if y in s[1..] {
          var k :| 0 <= k < |s| - 1 && s[1..][k] == y;
          assert LexLess(s[0], s[k + 1]);
          LexLessIrreflexive(y);
        }
        if y in rest {
          assert y in s && y != s[0];
          assert s == [s[0]] + s[1..];
        }
      }
      UniqueLength(s[1..], rest);
    } else {
      assert forall y :: y !in elems;
      assert elems == {};
    }
  }

  /** A neighbourhood never has more active listings than listings. */
  lemma {:induction false} ActiveCountAtMostTotal(rows: seq<Listing>, n: string)
    ensures IdCount(ActiveListings(rows), n) <= IdCount(rows, n)
  {
    if rows != [] {
      ActiveCountAtMostTotal(rows[1..], n);
    }
  }

  /**
   * The ranking of neighbourhoods by active listings: the competition ranking
   * of the active rows, so every ranked name is a neighbourhood of an active
   * listing and every count is at most that neighbourhood's count of all
   * listings.
   */
  function TopActiveCompetition(rows: seq<Listing>): (top: seq<GroupCount>)
    ensures var active := ActiveListings(rows);
      |top| == (if |NeighbourhoodSet(active)| <= TopN then |NeighbourhoodSet(active)| else TopN) &&
      NonIncreasing(top) && DistinctNames(top) &&
      forall g :: g in top ==> g.neighbourhood in NeighbourhoodSet(active) && g.count == IdCount(active, g.neighbourhood)
    ensures forall g :: g in top ==> g.neighbourhood in NeighbourhoodSet(rows) && g.count <= IdCount(rows, g.neighbourhood)
  {
    var active := ActiveListings(rows);
    TopCompetitionShape(active);
    forall g | g in TopCompetition(active)
      ensures g.neighbourhood in NeighbourhoodSet(rows) && g.count <= IdCount(rows, g.neighbourhood)
    {
      ActiveCountAtMostTotal(rows, g.neighbourhood);
      var x :| x in active && x.neighbourhood == Some(g.neighbourhood);
    }
    TopCompetition(active)
  }

  // --------------------------------------------------------------------- crime

  /** The category label of the synthetic per-year total rows. */
  const TotalLabel: string := "Total"

  /** Drops the synthetic `Total` rows, keeping the others in order. */
  function ExcludeTotal(records: seq<CrimeRecord>): (kept: seq<CrimeRecord>)
    ensures |kept| <= |records|
    ensures forall r :: r in kept <==> r in records && r.category != TotalLabel
  {
    if records == [] then []
    else
      assert records == [records[0]] + records[1..];
      if records[0].category == TotalLabel then ExcludeTotal(records[1..])
      else [records[0]] + ExcludeTotal(records[1..])
  }

  /** Reference definition: all incidents recorded for one category in one year. */
  function ReportsFor(records: seq<CrimeRecord>, category: string, year: int): int {
    if records == [] then 0
    else (if records[0].category == category && records[0].year == year then records[0].reports else 0)
         + ReportsFor(records[1..], category, year)
  }

  type Pivot = map<(string, int), int>

  /** A heatmap cell; pairs absent from the pivot read as 0 (`fillna(0)`). */
  function Cell(h: Pivot, category: string, year: int): int {
    if (category, year) in h then h[(category, year)] else 0
  }

  /** `pivot_table(index=category, columns=year, values=reports, aggfunc='sum')`. */
  function Heatmap(records: seq<CrimeRecord>): Pivot {
    if records == [] then map[]
    else
      var h := Heatmap(records[1..]);
      var r := records[0];
      h[(r.category, r.year) := Cell(h, r.category, r.year) + r.reports]
  }

  /** Every heatmap cell is the sum of its category's incidents in that year. */
  lemma {:induction false} HeatmapCell(records: seq<CrimeRecord>, category: string, year: int)
    ensures Cell(Heatmap(records), category, year) == ReportsFor(records, category, year)
  {
    if records != [] {
      HeatmapCell(records[1..], category, year);
    }
  }

  /** The heatmap has an entry exactly for the (category, year) pairs that occur. */
  lemma {:induction false} HeatmapKeys(records: seq<CrimeRecord>, category: string, year: int)
    ensures (category, year) in Heatmap(records) <==>
      exists r :: r in records && r.category == category && r.year == year
  {
    if records != [] {
      HeatmapKeys(records[1..], category, year);
      assert records == [records[0]] + records[1..];
    }
  }

  lemma {:induction false} ReportsForExcludingTotal(records: seq<CrimeRecord>, category: string, year: int)
    ensures ReportsFor(ExcludeTotal(records), category, year) ==
      if category == TotalLabel then 0 else ReportsFor(records, category, year)
  {
    if records != [] {
      ReportsForExcludingTotal(records[1..], category, year);
    }
  }

  /** The crime heatmap: the pivot of the rows other than `Total`. */
  function CrimeHeatmap(records: seq<CrimeRecord>): Pivot {
    Heatmap(ExcludeTotal(records))
  }

  /** A crime heatmap cell sums a real category's incidents in a year; the `Total` rows never show. */
  lemma CrimeHeatmapCell(records: seq<CrimeRecord>, category: string, year: int)
    ensures Cell(CrimeHeatmap(records), category, year) ==
      if category == TotalLabel then 0 else ReportsFor(records, category, year)
    ensures (TotalLabel, year) !in CrimeHeatmap(records)
  {
    HeatmapCell(ExcludeTotal(records), category, year);
    ReportsForExcludingTotal(records, category, year);
    HeatmapKeys(ExcludeTotal(records), TotalLabel, year);
  }
}
