/**
 * The three tables the dashboard works on, one row type each. Only the columns
 * that the metrics, the filters and the aggregations read are kept.
 */
module Listings {
  import opened Wrappers

  /** The five investment columns the dashboard adds to every listing; a `None` entry is a NaN cell. */
  datatype Metrics = Metrics(
    annualIncome: Option<real>,
    estimatedPropertyValue: Option<real>,
    roi: Option<real>,
    netAnnualIncome: Option<real>,
    netRoi: Option<real>)

  /**
   * One row of the short-term-rental listing table. `metrics` is `None` until
   * the derived columns are assigned; `nAmenities` is `None` until the amenity
   * count is assigned, or when the listing has no amenities text.
   */
  datatype Listing = Listing(
    id: Option<int>,
    city: Option<string>,
    neighbourhood: Option<string>,
    price: Option<real>,
    daysRented: Option<real>,
    amenities: Option<string>,
    metrics: Option<Metrics>,
    nAmenities: Option<nat>)

  /** The listing table; `hasCity` says whether the table has a `city` column at all. */
  datatype ListingTable = ListingTable(hasCity: bool, rows: seq<Listing>)

  /** One row of the housing sale-price table: price per square metre (`precio`). */
  datatype SaleRecord = SaleRecord(neighbourhood: Option<string>, precio: Option<real>)

  /** The sale-price table; `hasPrecio` says whether it has a `precio` column at all. */
  datatype SalePriceTable = SalePriceTable(hasPrecio: bool, records: seq<SaleRecord>)

  /** One row of the crime table: category label (`Parámetro`), year (`Año`) and reported incidents (`Denuncias`). */
  datatype CrimeRecord = CrimeRecord(category: string, year: int, reports: int)
}
