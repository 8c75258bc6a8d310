/**
 * The dashboard's working listing table, which the page changes in place:
 * derived columns are assigned into it, and after filtering the name is
 * rebound to the filtered table.
 */
module Dashboard {
  import opened Listings
  import opened InvestmentMetrics
  import opened Filters
  import opened Views

  class ListingFrame {
    var hasCity: bool
    var rows: seq<Listing>

    constructor (table: ListingTable)
      ensures Table() == table
    {
      hasCity := table.hasCity;
      rows := table.rows;
    }

    function Table(): ListingTable
      reads this
    {
      ListingTable(hasCity, rows)
    }

    /**
     * Assigns the five derived columns to every row, against the one
     * estimated property value computed from the sale-price table.
     */
    method AddMetrics(sales: SalePriceTable)
      modifies this
      ensures hasCity == old(hasCity)
      ensures rows == WithMetrics(old(rows), EstimatedPropertyValue(sales))
    {
      var value := EstimatedPropertyValue(sales);
      var i := 0;
      while i < |rows|
        invariant 0 <= i <= |rows| == |old(rows)|
        invariant hasCity == old(hasCity)
        invariant forall k :: 0 <= k < i ==> rows[k] == Augment(old(rows)[k], value)
        invariant forall k :: i <= k < |rows| ==> rows[k] == old(rows)[k]
      {
        rows := rows[i := Augment(rows[i], value)];
        i := i + 1;
      }
      WithMetricsPointwise(old(rows), value, rows);
    }

    /** Assigns the `n_amenities` column to every row. */
    method AddAmenityCounts()
      modifies this
      ensures hasCity == old(hasCity)
      ensures |rows| == |old(rows)|
      ensures forall k :: 0 <= k < |rows| ==>
        rows[k] == old(rows)[k].(nAmenities := AmenityCountOf(old(rows)[k].amenities))
    {
      var i := 0;
      while i < |rows|
        invariant 0 <= i <= |rows| == |old(rows)|
        invariant hasCity == old(hasCity)
        invariant forall k :: 0 <= k < i ==>
          rows[k] == old(rows)[k].(nAmenities := AmenityCountOf(old(rows)[k].amenities))
        invariant forall k :: i <= k < |rows| ==> rows[k] == old(rows)[k]
      {
        rows := rows[i := rows[i].(nAmenities := AmenityCountOf(rows[i].amenities))];
        i := i + 1;
      }
    }

    /**
     * Runs the sidebar filters; when a table is shown, the frame becomes that
     * table. Without a `city` column the table is rebound before the emptiness
     * check, so a neighbourhood stop leaves it empty; with one, a stop leaves
     * it as it was.
     */
    method ApplyFilter(city: string, selected: seq<string>) returns (outcome: FilterOutcome)
      modifies this
      ensures outcome == FilterListings(old(Table()), city, selected)
      ensures hasCity == old(hasCity)
      ensures rows == if outcome.Shown? then outcome.rows
                      else if outcome.NoSelectedData? && !hasCity then []
                      else old(rows)
    {
      outcome := FilterListings(Table(), city, selected);
      if outcome.Shown? {
        rows := outcome.rows;
      } else if outcome.NoSelectedData? && !hasCity {
        rows := [];
      }
    }

    /**
     * The page's preparation: derived columns on the whole table, then the
     * filters. The result is as if the raw table had been filtered first and
     * only the shown rows had received the derived columns.
     */
    method Prepare(sales: SalePriceTable, city: string, selected: seq<string>) returns (outcome: FilterOutcome)
      modifies this
      ensures hasCity == old(hasCity)
      ensures outcome.NoSelectedData? && !hasCity ==> rows == []
      ensures (outcome.NoCityData? || (outcome.NoSelectedData? && hasCity)) ==>
        rows == WithMetrics(old(rows), EstimatedPropertyValue(sales))
      ensures var raw := FilterListings(old(Table()), city, selected);
        outcome.NoCityData? == raw.NoCityData? && outcome.Shown? == raw.Shown? &&
        (!outcome.NoCityData? ==> outcome.universe == raw.universe) &&
        (outcome.Shown? ==> rows == outcome.rows == WithMetrics(raw.rows, EstimatedPropertyValue(sales)))
    {
      ghost var original := Table();
      AddMetrics(sales);
      outcome := ApplyFilter(city, selected);
      FilterWithMetrics(original, city, selected, EstimatedPropertyValue(sales));
    }
  }
}
