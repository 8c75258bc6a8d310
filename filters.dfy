/**
 * The sidebar filters: narrow the listings to one city (case-insensitively),
 * offer the sorted distinct neighbourhoods of what is left, and keep the
 * listings whose neighbourhood the user selected (case-sensitively). An empty
 * result at either step stops the page instead of producing a table.
 */
module Filters {
  import opened Wrappers
  import opened Listings
  import opened Text
  import opened InvestmentMetrics

  /** Listings rented more days than this in a year count as active. */
  const ActiveDaysThreshold: real := 30.0

  /** The row masks the dashboard applies to the listing table. */
  datatype Criterion =
    | CityIs(city: string)                   // lower-cased city equals the lower-cased selection
    | NeighbourhoodIn(selected: seq<string>) // neighbourhood is one of the selected names
    | Active                                 // days rented above the threshold

  /** Whether a row passes a mask; a NaN cell never does. */
  predicate Satisfies(row: Listing, c: Criterion) {
    match c
    case CityIs(city) => row.city.Some? && ToLower(row.city.value) == ToLower(city)
    case NeighbourhoodIn(selected) => row.neighbourhood.Some? && row.neighbourhood.value in selected
    case Active => row.daysRented.Some? && row.daysRented.value > ActiveDaysThreshold
  }

  /** `df[mask]`: the rows that pass, in their original order. */
  function Where(rows: seq<Listing>, c: Criterion): (kept: seq<Listing>)
    ensures |kept| <= |rows|
    ensures forall x :: x in kept <==> x in rows && Satisfies(x, c)
  {
    if rows == [] then []
    else
      assert rows == [rows[0]] + rows[1..];
      if Satisfies(rows[0], c) then [rows[0]] + Where(rows[1..], c) else Where(rows[1..], c)
  }

  /** `a` can be obtained from `b` by deleting elements. */
  predicate IsSubsequence(a: seq<Listing>, b: seq<Listing>)
    decreases |b|
  {
    if b == [] then a == []
    else IsSubsequence(a, b[1..]) || (a != [] && a[0] == b[0] && IsSubsequence(a[1..], b[1..]))
  }

  lemma {:induction false} IsSubsequenceTransitive(a: seq<Listing>, b: seq<Listing>, c: seq<Listing>)
    requires IsSubsequence(a, b) && IsSubsequence(b, c)
    ensures IsSubsequence(a, c)
    decreases |c|
  {
    if c == [] {
    } else if IsSubsequence(b, c[1..]) {
      IsSubsequenceTransitive(a, b, c[1..]);
    } else if IsSubsequence(a, b[1..]) {
      IsSubsequenceTransitive(a, b[1..], c[1..]);
    } else {
      IsSubsequenceTransitive(a[1..], b[1..], c[1..]);
    }
  }

  /** Masking keeps the input order: the result is a subsequence of the input. */
  lemma {:induction false} WhereIsSubsequence(rows: seq<Listing>, c: Criterion)
    ensures IsSubsequence(Where(rows, c), rows)
  {
    if rows != [] {
      WhereIsSubsequence(rows[1..], c);
    }
  }

  /** Masking keeps every copy of a passing row and no copy of a failing one. */
  lemma {:induction false} WhereMultiplicity(rows: seq<Listing>, c: Criterion, x: Listing)
    ensures multiset(Where(rows, c))[x] == if Satisfies(x, c) then multiset(rows)[x] else 0
  {
    if rows != [] {
      WhereMultiplicity(rows[1..], c, x);
      assert rows == [rows[0]] + rows[1..];
    }
  }

  /** A mask that every row passes changes nothing, and only such a mask does. */
  lemma {:induction false} WhereKeepsAll(rows: seq<Listing>, c: Criterion)
    ensures Where(rows, c) == rows <==> forall x :: x in rows ==> Satisfies(x, c)
  {
    if rows != [] && forall x :: x in rows ==> Satisfies(x, c) {
      WhereKeepsAll(rows[1..], c);
      assert rows == [rows[0]] + rows[1..];
    }
  }

  /** Applying the same mask twice is applying it once. */
  lemma WhereIdempotent(rows: seq<Listing>, c: Criterion)
    ensures Where(Where(rows, c), c) == Where(rows, c)
  {
    WhereKeepsAll(Where(rows, c), c);
  }

  /** Two masks that agree on every row select the same rows. */
  lemma {:induction false} WhereAgreeing(rows: seq<Listing>, c: Criterion, d: Criterion)
    requires forall x :: x in rows ==> (Satisfies(x, c) <==> Satisfies(x, d))
    ensures Where(rows, c) == Where(rows, d)
  {
    if rows != [] {
      assert rows == [rows[0]] + rows[1..];
      WhereAgreeing(rows[1..], c, d);
    }
  }

  /** The city match ignores case: selecting a city or its lower-cased name selects the same rows. */
  lemma CityMatchIgnoresCase(rows: seq<Listing>, city: string)
    ensures Where(rows, CityIs(city)) == Where(rows, CityIs(ToLower(city)))
  {
    ToLowerIdempotent(city);
    WhereAgreeing(rows, CityIs(city), CityIs(ToLower(city)));
  }

  /**
   * The asymmetry between the two matches: a row always matches its own city
   * lower-cased, but never the lower-cased form of a neighbourhood name that
   * has an upper-case letter.
   */
  lemma CaseAsymmetry(row: Listing, i: nat)
    requires row.city.Some? && row.neighbourhood.Some?
    requires i < |row.neighbourhood.value| && 'A' <= row.neighbourhood.value[i] <= 'Z'
    ensures Satisfies(row, CityIs(ToLower(row.city.value)))
    ensures !Satisfies(row, NeighbourhoodIn([ToLower(row.neighbourhood.value)]))
  {
    ToLowerIdempotent(row.city.value);
    ToLowerAt(row.neighbourhood.value, i);
  }

  /** The non-missing neighbourhoods of some rows. */
  function NeighbourhoodSet(rows: seq<Listing>): set<string> {
    set x | x in rows && x.neighbourhood.Some? :: x.neighbourhood.value
  }

  /** `sorted(rows['neighbourhood'].dropna().unique())`. */
  function Universe(rows: seq<Listing>): seq<string> {
    if rows == [] then []
    else
      match rows[0].neighbourhood
      case None => Universe(rows[1..])
      case Some(n) => Insert(n, Universe(rows[1..]))
  }

  /**
   * The neighbourhood list is strictly sorted (so free of duplicates) and holds
   * exactly the non-missing neighbourhoods of the rows it is built from.
   */
  lemma {:induction false} UniverseSpec(rows: seq<Listing>)
    ensures StrictlySorted(Universe(rows))
    ensures forall n :: n in Universe(rows) <==> n in NeighbourhoodSet(rows)
  {
    if rows != [] {
      UniverseSpec(rows[1..]);
      assert rows == [rows[0]] + rows[1..];
      if rows[0].neighbourhood.Some? {
        InsertSpec(rows[0].neighbourhood.value, Universe(rows[1..]));
        assert NeighbourhoodSet(rows) == NeighbourhoodSet(rows[1..]) + {rows[0].neighbourhood.value};
      } else {
        assert NeighbourhoodSet(rows) == NeighbourhoodSet(rows[1..]);
      }
    }
  }

  /** The neighbourhood list is the only strictly sorted list of those neighbourhoods. */
  lemma UniverseIsSortedUnique(rows: seq<Listing>, names: seq<string>)
    requires StrictlySorted(names)
    requires forall n :: n in names <==> n in NeighbourhoodSet(rows)
    ensures names == Universe(rows)
  {
    UniverseSpec(rows);
    StrictlySortedUnique(names, Universe(rows));
  }

  /** How one run of the sidebar filters ends. */
  datatype FilterOutcome =
    | NoCityData                               // no listing in the selected city; stops before any neighbourhood list
    | NoSelectedData(universe: seq<string>)    // the neighbourhood selection keeps nothing
    | Shown(universe: seq<string>, rows: seq<Listing>)

  /** The rows the neighbourhood list is built from: the city's rows, or all rows without a `city` column. */
  function CityRows(t: ListingTable, city: string): seq<Listing> {
    if t.hasCity then Where(t.rows, CityIs(city)) else t.rows
  }

  /** The options (and default selection) of the neighbourhood picker; none when the city step stops the page. */
  function NeighbourhoodOptions(t: ListingTable, city: string): Option<seq<string>> {
    if t.hasCity && CityRows(t, city) == [] then None else Some(Universe(CityRows(t, city)))
  }

  /** The city step, then the neighbourhood step, each stopping on an empty result. */
  function FilterListings(t: ListingTable, city: string, selected: seq<string>): FilterOutcome {
    var base := CityRows(t, city);
    if t.hasCity && base == [] then NoCityData
    else
      var universe := Universe(base);
      var kept := Where(base, NeighbourhoodIn(selected));
      if kept == [] then NoSelectedData(universe) else Shown(universe, kept)
  }

  /**
   * Which outcome a run has: the city stop exactly when the table has a city
   * column and no row matches the city; otherwise the offered neighbourhoods,
   * and a table exactly when some city row has a selected neighbourhood.
   */
  lemma FilterStops(t: ListingTable, city: string, selected: seq<string>)
    ensures var o := FilterListings(t, city, selected);
      (o.NoCityData? <==> t.hasCity && forall x :: x in t.rows ==> !Satisfies(x, CityIs(city))) &&
      (!o.NoCityData? ==> Some(o.universe) == NeighbourhoodOptions(t, city)) &&
      (o.Shown? <==> !o.NoCityData? && exists x :: x in CityRows(t, city) && Satisfies(x, NeighbourhoodIn(selected))) &&
      (o.Shown? ==> o.rows != [])
  {
    var base := CityRows(t, city);
    if t.hasCity {
      assert base == [] <==> forall x :: x in t.rows ==> !Satisfies(x, CityIs(city)) by {
        assert base != [] ==> base[0] in base;
      }
    }
    var kept := Where(base, NeighbourhoodIn(selected));
    assert kept != [] ==> kept[0] in kept;
  }

  /**
   * A shown table holds exactly the input rows that pass both steps, every
   * copy of them, in their input order, and so is never longer than the input.
   */
  lemma FilterExact(t: ListingTable, city: string, selected: seq<string>)
    requires FilterListings(t, city, selected).Shown?
    ensures var o := FilterListings(t, city, selected);
      IsSubsequence(o.rows, t.rows) && |o.rows| <= |t.rows| &&
      forall x :: multiset(o.rows)[x] ==
        if (t.hasCity ==> Satisfies(x, CityIs(city))) && Satisfies(x, NeighbourhoodIn(selected))
        then multiset(t.rows)[x] else 0
  {
    var base := CityRows(t, city);
    var o := FilterListings(t, city, selected);
    WhereIsSubsequence(base, NeighbourhoodIn(selected));
    if t.hasCity {
      WhereIsSubsequence(t.rows, CityIs(city));
      IsSubsequenceTransitive(o.rows, base, t.rows);
    }
    forall x ensures multiset(o.rows)[x] ==
        if (t.hasCity ==> Satisfies(x, CityIs(city))) && Satisfies(x, NeighbourhoodIn(selected))
        then multiset(t.rows)[x] else 0
    {
      WhereMultiplicity(base, NeighbourhoodIn(selected), x);
      if t.hasCity {
        WhereMultiplicity(t.rows, CityIs(city), x);
      }
    }
  }

  /** The neighbourhood list is built from the city's rows, not from the whole table. */
  lemma UniverseFromCityRows(t: ListingTable, city: string, selected: seq<string>)
    requires !FilterListings(t, city, selected).NoCityData?
    ensures var u := FilterListings(t, city, selected).universe;
      StrictlySorted(u) &&
      forall n :: n in u <==> exists x :: x in t.rows && (t.hasCity ==> Satisfies(x, CityIs(city))) && x.neighbourhood == Some(n)
  {
    var base := CityRows(t, city);
    UniverseSpec(base);
    var u := FilterListings(t, city, selected).universe;
    forall n ensures n in u <==> exists x :: x in t.rows && (t.hasCity ==> Satisfies(x, CityIs(city))) && x.neighbourhood == Some(n)
    {
      if n in u {
        var x :| x in base && x.neighbourhood.Some? && x.neighbourhood.value == n;
      }
    }
  }

  /**
   * With the default selection (every offered neighbourhood) the neighbourhood
   * step drops exactly the rows whose neighbourhood is missing.
   */
  lemma DefaultSelection(t: ListingTable, city: string)
    requires NeighbourhoodOptions(t, city).Some?
    ensures var o := FilterListings(t, city, NeighbourhoodOptions(t, city).value);
      (o.Shown? <==> NeighbourhoodSet(CityRows(t, city)) != {}) &&
      (o.Shown? ==>
         forall x :: multiset(o.rows)[x] == if x.neighbourhood.Some? then multiset(CityRows(t, city))[x] else 0)
  {
    var base := CityRows(t, city);
    var u := NeighbourhoodOptions(t, city).value;
    UniverseSpec(base);
    var kept := Where(base, NeighbourhoodIn(u));
    forall x | x in base ensures Satisfies(x, NeighbourhoodIn(u)) <==> x.neighbourhood.Some? {
      if x.neighbourhood.Some? {
        assert x.neighbourhood.value in NeighbourhoodSet(base);
      }
    }
    if NeighbourhoodSet(base) != {} {
      var n :| n in NeighbourhoodSet(base);
      var x :| x in base && x.neighbourhood == Some(n);
      assert x in kept;
    }
    assert kept != [] ==> kept[0] in kept;
    forall x ensures multiset(kept)[x] == if x.neighbourhood.Some? then multiset(base)[x] else 0 {
      WhereMultiplicity(base, NeighbourhoodIn(u), x);
    }
  }

  /** Filtering a shown table again with the same selection gives back the same rows. */
  lemma FilterIdempotent(t: ListingTable, city: string, selected: seq<string>)
    requires FilterListings(t, city, selected).Shown?
    ensures var rows := FilterListings(t, city, selected).rows;
      var again := FilterListings(ListingTable(t.hasCity, rows), city, selected);
      again.Shown? && again.rows == rows
  {
    var base := CityRows(t, city);
    var rows := FilterListings(t, city, selected).rows;
    var t' := ListingTable(t.hasCity, rows);
    if t.hasCity {
      WhereKeepsAll(rows, CityIs(city));
    }
    assert CityRows(t', city) == rows;
    WhereKeepsAll(rows, NeighbourhoodIn(selected));
  }

  /** A table whose only row is in Valencia, filtered on "madrid", stops at the city step. */
  lemma NoMadridExample()
    ensures var t := ListingTable(true, [Listing(Some(1), Some("Valencia"), Some("Russafa"), Some(50.0), Some(100.0), None, None, None)]);
      FilterListings(t, "madrid", ["Salamanca"]) == NoCityData
  {
    ToLowerAt("Valencia", 0);
    ToLowerAt("madrid", 0);
    assert ToLower("Valencia")[0] != ToLower("madrid")[0];
  }

  // The metrics columns do not take part in any mask, so computing them
  // before or after filtering gives the same table.

  lemma {:induction false} WhereWithMetrics(rows: seq<Listing>, c: Criterion, value: Option<real>)
    ensures Where(WithMetrics(rows, value), c) == WithMetrics(Where(rows, c), value)
  {
    if rows != [] {
      WhereWithMetrics(rows[1..], c, value);
    }
  }

  lemma {:induction false} UniverseWithMetrics(rows: seq<Listing>, value: Option<real>)
    ensures Universe(WithMetrics(rows, value)) == Universe(rows)
  {
    if rows != [] {
      UniverseWithMetrics(rows[1..], value);
    }
  }

  /**
   * Filtering the augmented table ends the same way as filtering the raw one,
   * with the same neighbourhood list, and a shown table is the augmented
   * version of the raw result.
   */
  lemma FilterWithMetrics(t: ListingTable, city: string, selected: seq<string>, value: Option<real>)
    ensures var raw := FilterListings(t, city, selected);
      var o := FilterListings(ListingTable(t.hasCity, WithMetrics(t.rows, value)), city, selected);
      o.NoCityData? == raw.NoCityData? && o.Shown? == raw.Shown? &&
      (!o.NoCityData? ==> o.universe == raw.universe) &&
      (o.Shown? ==> o.rows == WithMetrics(raw.rows, value))
  {
    var t' := ListingTable(t.hasCity, WithMetrics(t.rows, value));
    WhereWithMetrics(t.rows, CityIs(city), value);
    assert CityRows(t', city) == WithMetrics(CityRows(t, city), value);
    WithMetricsLength(CityRows(t, city), value);
    UniverseWithMetrics(CityRows(t, city), value);
    WhereWithMetrics(CityRows(t, city), NeighbourhoodIn(selected), value);
    WithMetricsLength(Where(CityRows(t, city), NeighbourhoodIn(selected)), value);
  }
}
